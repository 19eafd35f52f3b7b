/** decDivide after its loops: the sticky bit, the digits of the quotient, and the four operations. */
module DivisionOps {
  import opened Arith
  import opened Digits
  import opened Rounding
  import opened Sticky
  import opened Context
  import opened Finalizer
  import opened BillBcd
  import opened Multiply
  import opened ExactSum
  import opened LongDivision

  /* ---- The sticky quotient ---- */

  /** x | 1 */
  function Or1(x: nat): nat {
    if x % 2 == 0 then x + 1 else x
  }

  /** c stands for the quotient of cl * 10^n by cr: it is exact, without spare trailing zeros, or it
      has more than p+1 digits and its last bit is sticky. */
  ghost predicate StandsFor(f: Format, cl: nat, cr: nat, n: nat, c: nat) {
    var x := cl * Pow(10, n);
    && cr > 0
    && if x % cr == 0 then c == x / cr && (n > 0 ==> c % 10 != 0)
       else c == Or1(x / cr) && Pow(10, f.p + 1) <= x / cr
  }

  lemma OrUnits(s: seq<nat>, c: nat)
    requires |s| > 0 && AreUnits(BILLION, s) && Units(BILLION, s) == c
    ensures AreUnits(BILLION, s[0 := Or1(s[0])]) && Units(BILLION, s[0 := Or1(s[0])]) == Or1(c)
  {
    hide Units;
    assert Pow(BILLION, 0) == 1;
    UnitsUpdate(BILLION, s, 0, Or1(s[0]));
    UnitsFirst(BILLION, s);
    SameParity(c, s[0], Units(BILLION, s[1..]));
    OrBelow(s[0]);
  }

  lemma SameParity(c: nat, low: nat, rest: nat)
    requires c == low + rest * BILLION
    ensures c % 2 == low % 2
  {}

  lemma OrBelow(x: nat)
    requires x < BILLION
    ensures Or1(x) < BILLION
  {}

  /** The sticky bit adds no digit. */
  lemma OrDigits(c: nat)
    requires c > 0
    ensures NumDigits(Or1(c)) == NumDigits(c)
  {
    hide NumDigits, Pow;
    var n := NumDigits(c);
    NumDigitsBounds(c);
    TenIsEven(n);
    NumDigitsIs(Or1(c), n);
  }

  lemma TenIsEven(n: nat)
    requires n > 0
    ensures Pow(10, n) == 2 * (5 * Pow(10, n - 1)) && Pow(10, n) == 10 * Pow(10, n - 1)
  {}

  /** A string of known length has no leading zero. */
  lemma LeadsNonZero(s: seq<nat>, c: nat)
    requires AreDigits(s) && Val(s) == c > 0 && |s| == NumDigits(c)
    ensures s[0] != 0 && Trimmed(s)
  {
    hide Val, Pow, NumDigits;
    NumDigitsBounds(c);
    ValLeading(s);
    if s[0] == 0 {
      ValSkipZero(s);
    }
  }

  /** Lays the quotient out as digits; the first is buf[msd], which is not zero. */
  method QuotientDigits(f: Format, quo: array<nat>, lsuq: nat, quodigits: nat, ghost c: nat)
    returns (bcdacc: array<nat>, msd: nat, lsd: nat)
    requires f.Valid() && quo.Length == f.oplen + 1 && lsuq <= f.oplen && AreUnits(BILLION, quo[lsuq..])
    requires Units(BILLION, quo[lsuq..]) == c > 0 && quodigits == NumDigits(c) > 9 * (f.oplen - lsuq)
    requires quodigits <= 9 * (f.oplen + 1 - lsuq)
    ensures fresh(bcdacc) && bcdacc.Length == (f.oplen + 1) * 9 + 2 && 1 <= msd <= 9 && msd <= lsd < bcdacc.Length - 1
    ensures Trimmed(bcdacc[msd..lsd + 1]) && Val(bcdacc[msd..lsd + 1]) == c
  {
    hide Val, Units, Pow, NumDigits, Trimmed;
    var units := f.oplen + 1 - lsuq;
    bcdacc := new nat[(f.oplen + 1) * 9 + 2];
    assert quo[lsuq..] == quo[lsuq..f.oplen + 1];
    LayOutUnits(quo, lsuq, f.oplen + 1, bcdacc, 1);
    lsd := units * 9;
    msd := 1 + units * 9 - quodigits;
    ghost var s := bcdacc[1..1 + 9 * units];
    NumDigitsBounds(c);
    SkipLeading(s, msd - 1, c);
    assert bcdacc[msd..lsd + 1] == s[msd - 1..];
    LeadsNonZero(bcdacc[msd..lsd + 1], c);
  }

  /** Units of this many cannot hold more digits. */
  lemma UnitsHold(s: seq<nat>)
    requires AreUnits(BILLION, s) && Units(BILLION, s) > 0
    ensures NumDigits(Units(BILLION, s)) <= 9 * |s|
  {
    hide Units, Pow, NumDigits;
    var c := Units(BILLION, s);
    UnitsBound(BILLION, s);
    BillPow(|s|);
    NumDigitsBounds(c);
    if NumDigits(c) > 9 * |s| { PowMono(10, 9 * |s|, NumDigits(c) - 1); }
  }

  /** Drops the trailing zeros of an exact quotient whose last unit is not zero: fewer than nine. */
  method DropTrailing(buf: array<nat>, msd: nat, lsd: nat, ghost c: nat) returns (ub: nat)
    requires msd <= lsd < buf.Length && Trimmed(buf[msd..lsd + 1]) && Val(buf[msd..lsd + 1]) == c && c % BILLION != 0
    ensures msd <= ub <= lsd < ub + 9 && Trimmed(buf[msd..ub + 1])
    ensures Val(buf[msd..ub + 1]) * Pow(10, lsd - ub) == c && Val(buf[msd..ub + 1]) % 10 != 0
  {
    hide Val, Pow;
    ghost var s := buf[msd..lsd + 1];
    ub := lsd;
    assert buf[msd] == s[0];
    if |s| == 1 { assert s == [s[0]]; ValOne(s[0]); }
    while buf[ub] == 0
      invariant msd <= ub <= lsd && forall i :: ub < i <= lsd ==> buf[i] == 0
      invariant buf[msd] != 0
      decreases ub
    {
      ub := ub - 1;
    }
    ghost var t := buf[msd..ub + 1];
    assert t == s[..ub + 1 - msd];
    TailZeros(s, ub - msd);
    LastNonZero(t);
    FewZeros(Val(t), lsd - ub, c);
  }

  lemma LastNonZero(t: seq<nat>)
    requires |t| > 0 && AreDigits(t) && t[|t| - 1] != 0
    ensures Val(t) % 10 != 0
  {
    var v := Val(t[..|t| - 1]);
  }

  lemma FewZeros(x: nat, z: nat, c: nat)
    requires x * Pow(10, z) == c && c % BILLION != 0
    ensures z < 9
  {
    hide Pow;
    if z >= 9 {
      PowSplit(10, z, 9);
      SmallPowers();
      MulAssoc(x, Pow(10, z - 9), BILLION);
      DivModUnique(c, BILLION, x * Pow(10, z - 9), 0);
    }
  }

  /** The quotient as a number to be finished off: sticky bit, digits, exponent. */
  method QuotientNumber(f: Format, cl: nat, cr: nat, neg: bool, ideal: int, use64: bool) returns (num: BcdNum)
    requires f.Valid() && 0 < cl < Pow(10, f.p) && 0 < cr < Pow(10, f.p)
    ensures fresh(num) && fresh(num.buf) && num.Valid() && num.neg == neg
    ensures num.exponent <= ideal && StandsFor(f, cl, cr, ideal - num.exponent, num.Coefficient())
    ensures Trimmed(num.buf[num.msd..num.lsd + 1]) && num.Coefficient() > 0
    ensures 1 <= num.msd <= 9 && num.buf.Length == (f.oplen + 1) * 9 + 2
  {
    hide Val, Units, Pow, NumDigits, Trimmed, StandsFor;
    var quo, lsuq, quodigits, lsua, exact, q, r := LongDivide(f, cl, cr, use64);
    ghost var c := q;
    if !exact {
      OrUnits(quo[lsuq..], q);
      OrDigits(q);
      c := Or1(q);
      ghost var s := quo[lsuq..];
      quo[lsuq] := Or1(quo[lsuq]);
      assert quo[lsuq..] == s[0 := Or1(s[0])];
    }
    UnitsHold(quo[lsuq..]);
    var bcdacc, msd, lsd := QuotientDigits(f, quo, lsuq, quodigits, c);
    var k := 2 * f.oplen - lsua;
    var exponent, ub := ideal, lsd;
    SmallPowers();
    if lsua < 2 * f.oplen {
      exponent := exponent - k * 9;
      if exact {
        LastUnit(quo[lsuq..], q);
        ub := DropTrailing(bcdacc, msd, lsd, q);
        exponent := exponent + (lsd - ub);
      }
    }
    BillPow(k);
    QuotientStands(f, cl, cr, k, q, r, lsd - ub, Val(bcdacc[msd..ub + 1]));
    assert AreDigits(bcdacc[msd..ub + 1]) by { TrimmedAreDigits(bcdacc[msd..ub + 1]); }
    num := new BcdNum(bcdacc, msd, ub, neg, exponent);
  }

  lemma TrimmedAreDigits(s: seq<nat>)
    requires Trimmed(s)
    ensures AreDigits(s)
  {}

  lemma LastUnit(s: seq<nat>, c: nat)
    requires |s| > 0 && AreUnits(BILLION, s) && Units(BILLION, s) == c && s[0] != 0
    ensures c % BILLION != 0
  {
    hide Units;
    UnitsFirst(BILLION, s);
    DivModUnique(c, BILLION, Units(BILLION, s[1..]), s[0]);
  }

  lemma QuotientStands(f: Format, cl: nat, cr: nat, k: nat, q: nat, r: nat, z: nat, c: nat)
    requires 0 < cr && r < cr && q > 0 && cl * Pow(10, 9 * k) == q * cr + r
    requires r != 0 ==> NumDigits(q) > f.p + 1 && c == Or1(q) && z == 0
    requires r == 0 ==> c * Pow(10, z) == q && (k > 0 ==> c % 10 != 0 && z < 9) && (k == 0 ==> z == 0)
    ensures z <= 9 * k && StandsFor(f, cl, cr, 9 * k - z, c) && c > 0
  {
    hide Pow, NumDigits;
    var n := 9 * k - z;
    var x := cl * Pow(10, n);
    assert 0 * Pow(10, z) == 0;
    if r == 0 {
      PowSplit(10, 9 * k, z);
      MulAssoc(cl, Pow(10, n), Pow(10, z));
      assert c * Pow(10, z) * cr == c * cr * Pow(10, z) by { SwapRight(c, Pow(10, z), cr); }
      MulCancel(x, c * cr, Pow(10, z));
      DivModUnique(x, cr, c, 0);
    } else {
      DivModUnique(x, cr, q, r);
      NumDigitsBounds(q);
      PowMono(10, f.p + 1, NumDigits(q) - 1);
    }
  }

  /* ---- The sticky quotient rounds like the exact one ---- */

  /** The exact quotient cl*10^el / cr*10^er rounded once, with ideal exponent el-er. */
  function QuotientOutcome(f: Format, mode: Mode, neg: bool, cl: nat, el: int, cr: nat, er: int): Outcome
    requires f.p > 0 && cr > 0
  {
    var e := el - er;
    MulPos(UnitsDen(f, e), cr);
    RoundExact(f, mode, neg, UnitsNum(f, cl, e), UnitsDen(f, e) * cr, e - f.etiny)
  }

  /** What it rounds is the quotient: whatever a/b (in units of 10^Etiny) times the divisor gives the dividend,
      counted from any place m low enough for both sides. */
  lemma QuotientTimesDivisor(f: Format, mode: Mode, neg: bool, cl: nat, el: int, cr: nat, er: int,
                             a: nat, b: nat, m: int)
    requires f.p > 0 && cr > 0 && b > 0 && m <= el && m <= f.etiny + er
    requires a * cr * Pow(10, f.etiny + er - m) == b * cl * Pow(10, el - m)
    ensures QuotientOutcome(f, mode, neg, cl, el, cr, er) == RoundExact(f, mode, neg, a, b, el - er - f.etiny)
  {
    hide Pow, RoundExact;
    var e := el - er;
    var up, down := Pow(10, f.etiny + er - m), Pow(10, el - m);
    MulPos(UnitsDen(f, e), cr);
    if e >= f.etiny {
      PowSplit(10, el - m, f.etiny + er - m);
      Crossed(a * cr, b, cl, Pow(10, e - f.etiny), up);
    } else {
      PowSplit(10, f.etiny + er - m, el - m);
      Crossed(b * cl, a, cr, Pow(10, f.etiny - e), down);
    }
    assert UnitsNum(f, cl, e) * b == a * (UnitsDen(f, e) * cr);
    SameFraction(f, mode, neg, UnitsNum(f, cl, e), UnitsDen(f, e) * cr, a, b, e - f.etiny);
  }

  lemma Crossed(x: nat, y: nat, c: nat, t: nat, u: nat)
    requires u > 0 && x * u == y * c * (t * u)
    ensures x == c * t * y && x == y * (t * c)
  {
    assert y * c * (t * u) == y * c * t * u by { MulAssoc(y * c, t, u); }
    MulCancel(x, y * c * t, u);
    assert y * c * t == c * t * y && y * c * t == y * (t * c);
  }

  /** The same fraction counted from n places further down. */
  lemma QuotientAt(f: Format, mode: Mode, neg: bool, cl: nat, cr: nat, e: int, n: nat, ideal: int)
    requires f.Valid() && cr > 0
    ensures UnitsDen(f, e) * cr > 0 && UnitsDen(f, e - n) * cr > 0
    ensures RoundExact(f, mode, neg, UnitsNum(f, cl, e), UnitsDen(f, e) * cr, ideal)
         == RoundExact(f, mode, neg, UnitsNum(f, cl * Pow(10, n), e - n), UnitsDen(f, e - n) * cr, ideal)
  {
    hide Pow, UnitsNum, UnitsDen, RoundExact;
    MulPos(UnitsDen(f, e), cr);
    MulPos(UnitsDen(f, e - n), cr);
    CrossMultiplied(f, cl, e, e, e - n);
    AlignedSelf(cl, e);
    assert Aligned(cl, e, e - n) == cl * Pow(10, n);
    MulAssoc(UnitsNum(f, cl, e), UnitsDen(f, e - n), cr);
    MulAssoc(UnitsNum(f, cl * Pow(10, n), e - n), UnitsDen(f, e), cr);
    SameFraction(f, mode, neg, UnitsNum(f, cl, e), UnitsDen(f, e) * cr,
                 UnitsNum(f, cl * Pow(10, n), e - n), UnitsDen(f, e - n) * cr, ideal);
  }

  lemma NumScaled(f: Format, c: nat, t: nat, e: int)
    ensures c * t >= 0 && UnitsNum(f, c, e) * t >= 0 && UnitsNum(f, c * t, e) == UnitsNum(f, c, e) * t
  {
    MulMono(0, c, t);
    if e >= f.etiny {
      hide Pow;
      SwapRight(c, Pow(10, e - f.etiny), t);
    }
    MulMono(0, UnitsNum(f, c, e), t);
  }

  /** A number without trailing zeros has no quantum above its own exponent, so a higher ideal
      exponent changes nothing. */
  lemma NoHigherQuantum(f: Format, c: nat, e: int, k: nat)
    requires c % 10 != 0 && UnitsNum(f, c, e) % MulPow(UnitsDen(f, e), k) == 0
    ensures k <= e - f.etiny
  {
    hide Pow, UnitsNum, UnitsDen;
    var j := k - (e - f.etiny);
    if j > 0 {
      var q := UnitsNum(f, c, e) / MulPow(UnitsDen(f, e), k);
      DivBounds(UnitsNum(f, c, e), MulPow(UnitsDen(f, e), k));
      TenDivides(f, c, e, k, q);
      assert false;
    }
  }

  lemma TenDivides(f: Format, c: nat, e: int, k: nat, q: nat)
    requires k > e - f.etiny && UnitsNum(f, c, e) == q * MulPow(UnitsDen(f, e), k)
    ensures c % 10 == 0
  {
    var j := k - (e - f.etiny);
    hide Pow;
    if e >= f.etiny {
      PowSplit(10, k, e - f.etiny);
      MulAssoc(q, Pow(10, j), Pow(10, e - f.etiny));
      MulCancel(c, q * Pow(10, j), Pow(10, e - f.etiny));
    } else {
      PowAdd(10, f.etiny - e, k);
    }
    TenIsEven(j);
    TenOut(q, Pow(10, j - 1));
  }

  lemma TenOut(q: nat, t: nat)
    ensures q * (10 * t) == 10 * (q * t) && q * (10 * t) % 10 == 0
  {}

  lemma IdealAbove(f: Format, mode: Mode, neg: bool, c: nat, e: int, ideal: int)
    requires f.Valid() && c % 10 != 0 && e - f.etiny <= ideal
    ensures RoundExact(f, mode, neg, UnitsNum(f, c, e), UnitsDen(f, e), ideal) == RoundScaled(f, mode, neg, c, e)
  {
    hide UnitsNum, UnitsDen, Pow, Fit, FitRounded, Rounded;
    var a, b := UnitsNum(f, c, e), UnitsDen(f, e);
    var k := Quantum(f.p, a, b);
    if a % MulPow(b, k) == 0 {
      NoHigherQuantum(f, c, e, k);
      SameClimb(f, c, e, k, ideal);
    }
  }

  lemma {:induction false} SameClimb(f: Format, c: nat, e: int, k: nat, ideal: int)
    requires c % 10 != 0 && UnitsNum(f, c, e) % MulPow(UnitsDen(f, e), k) == 0 && k <= e - f.etiny <= ideal
    ensures Climb(UnitsNum(f, c, e), UnitsDen(f, e), k, ideal) ==
      Climb(UnitsNum(f, c, e), UnitsDen(f, e), k, e - f.etiny)
    decreases ideal - k
  {
    hide UnitsNum, UnitsDen, Pow;
    if UnitsNum(f, c, e) % MulPow(UnitsDen(f, e), k + 1) == 0 {
      NoHigherQuantum(f, c, e, k + 1);
      SameClimb(f, c, e, k + 1, ideal);
    }
  }

  /** An inexact quotient and its sticky stand-in lie in one fine cell. */
  lemma StickyCell(f: Format, cl: nat, cr: nat, e: int, x: nat, q: nat, base: int)
    requires f.Valid() && cr > 0 && q == x / cr && x % cr != 0 && Pow(10, f.p + 1) <= q && base == Min(e, f.etiny)
    ensures UnitsDen(f, e) * cr > 0
    ensures var lo := Aligned(q - q % 2, e, base); var w := Aligned(2, e, base);
      && FineCell(f, f.etiny - base, lo, w, 1 + (e - base))
      && InCell(UnitsNum(f, Or1(q), e), UnitsDen(f, e), f.etiny - base, lo, w)
      && InCell(UnitsNum(f, x, e), UnitsDen(f, e) * cr, f.etiny - base, lo, w)
  {
    hide Pow, UnitsNum, UnitsDen, FineCell;
    var lo0 := q - q % 2;
    MulPos(UnitsDen(f, e), cr);
    EvenCell(f, f.etiny - e, q);
    FineCellAligned(f, lo0, 2, 1, e, base);
    AlignedSelf(Or1(q), e);
    AlignedSelf(lo0, e);
    AlignedSelf(lo0 + 2, e);
    WithinIsInCell(f, Or1(q), e, lo0, 2, e, base);
    UnitsAligned(f, x, e, base);
    AlignedSum(lo0, 2, e, base);
    hide Aligned, InCell;
    DivBounds(x, cr);
    RemainderBetween(x, cr, q, lo0);
    QuotientInCell(UnitsNum(f, x, e), UnitsDen(f, e), cr, f.etiny - base, x, lo0, e, base);
  }

  lemma EvenCell(f: Format, s: int, q: nat)
    requires f.Valid() && Pow(10, f.p + 1) <= q
    ensures FineCell(f, s, q - q % 2, 2, 1)
  {
    TenIsEven(f.p + 1);
    SmallPowers();
    hide Pow;
  }

  lemma RemainderBetween(x: nat, cr: nat, q: nat, lo: nat)
    requires cr > 0 && q * cr < x < q * cr + cr && lo <= q <= lo + 1
    ensures cr * lo < x < cr * (lo + 2)
  {
    MulMono(lo, q, cr);
    MulMono(q + 1, lo + 2, cr);
    OneMore(q, cr);
  }

  lemma QuotientInCell(a: nat, b: nat, cr: nat, s: nat, x: nat, lo: nat, e: int, base: int)
    requires b > 0 && cr > 0 && base <= e && a * Pow(10, s) == b * Aligned(x, e, base) && cr * lo < x < cr * (lo + 2)
    ensures InCell(a, b * cr, s, Aligned(lo, e, base), Aligned(2, e, base))
  {
    hide Pow;
    var t := Pow(10, e - base);
    MulStrict(cr * lo, x, t);
    MulStrict(x, cr * (lo + 2), t);
    MulAssoc(cr, lo, t);
    MulAssoc(cr, lo + 2, t);
    MulStrict(cr * (lo * t), x * t, b);
    MulStrict(x * t, cr * ((lo + 2) * t), b);
    MulAssoc(b, cr, lo * t);
    MulAssoc(b, cr, (lo + 2) * t);
    assert (lo + 2) * t == lo * t + 2 * t;
  }

  /** Rounding the digits that decDivide hands over is rounding the exact quotient. */
  lemma StickyQuotientRounds(f: Format, mode: Mode, neg: bool, cl: nat, el: int, cr: nat, er: int, n: nat, c: nat)
    requires f.Valid() && StandsFor(f, cl, cr, n, c)
    ensures RoundScaled(f, mode, neg, c, el - er - n) == QuotientOutcome(f, mode, neg, cl, el, cr, er)
  {
    hide Pow, UnitsNum, UnitsDen, RoundExact, RoundScaled;
    var e := el - er;
    var x := cl * Pow(10, n);
    QuotientAt(f, mode, neg, cl, cr, e, n, e - f.etiny);
    if x % cr == 0 {
      DivBounds(x, cr);
      NumScaled(f, c, cr, e - n);
      RoundExactScale(f, mode, neg, UnitsNum(f, c, e - n), UnitsDen(f, e - n), e - f.etiny, cr);
      if n > 0 {
        IdealAbove(f, mode, neg, c, e - n, e - f.etiny);
      } else {
        ScaledIs(f, mode, neg, c, e);
      }
    } else {
      var base := Min(e - n, f.etiny);
      StickyCell(f, cl, cr, e - n, x, x / cr, base);
      ScaledIs(f, mode, neg, c, e - n);
      SameCell(f, mode, neg, UnitsNum(f, c, e - n), UnitsDen(f, e - n), e - n - f.etiny,
               UnitsNum(f, x, e - n), UnitsDen(f, e - n) * cr, e - f.etiny,
               f.etiny - base, Aligned(x / cr - x / cr % 2, e - n, base), Aligned(2, e - n, base), 1 + (e - n - base));
    }
  }

  lemma ScaledIs(f: Format, mode: Mode, neg: bool, c: nat, e: int)
    requires f.p > 0
    ensures RoundScaled(f, mode, neg, c, e) == RoundExact(f, mode, neg, UnitsNum(f, c, e), UnitsDen(f, e), e - f.etiny)
  {}
}
