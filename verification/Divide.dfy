/** decDivide: long division in base 10^9 with a deliberately low estimate of each quotient unit. */
module LongDivision {
  import opened Arith
  import opened Digits
  import opened Rounding
  import opened BillBcd
  import opened Multiply

  const DIVLO: nat := 1_000_000
  const DIVHI: nat := BILLION / DIVLO

  /* ---- What the top units say about a whole number ---- */

  /** The first one, two or three units bound the number from below and above. */
  lemma TopOne(s: seq<nat>)
    requires |s| >= 1 && AreUnits(BILLION, s)
    ensures var n := |s|;
      s[n - 1] * Pow(BILLION, n - 1) <= Units(BILLION, s) < (s[n - 1] + 1) * Pow(BILLION, n - 1)
  {
    hide Pow, Units;
    var n := |s|;
    assert s[..n] == s;
    UnitsNext(BILLION, s, n - 1);
    UnitsBound(BILLION, s[..n - 1]);
    OneMore(s[n - 1], Pow(BILLION, n - 1));
  }

  lemma TopTwo(s: seq<nat>)
    requires |s| >= 2 && AreUnits(BILLION, s)
    ensures var n := |s|; var x := s[n - 1] * BILLION + s[n - 2];
      x * Pow(BILLION, n - 2) <= Units(BILLION, s) < (x + 1) * Pow(BILLION, n - 2)
    ensures |s| == 2 ==> Units(BILLION, s) == s[1] * BILLION + s[0]
  {
    hide Pow, Units;
    var n := |s|;
    assert s[..n] == s;
    UnitsNext(BILLION, s, n - 1);
    TopOne(s[..n - 1]);
    PowNextBill(n - 2);
    TwoUnits(s[n - 1], s[n - 2], Pow(BILLION, n - 2));
    if n == 2 {
      assert s == [s[0], s[1]];
      TwoUnitsValue(s[0], s[1]);
    }
  }

  lemma TwoUnitsValue(x: nat, y: nat)
    ensures Units(BILLION, [x, y]) == y * BILLION + x
  {
    UnitsFirst(BILLION, [x, y]);
    assert [x, y][1..] == [y];
    UnitsFirst(BILLION, [y]);
  }

  lemma PowNextBill(n: nat)
    ensures Pow(BILLION, n + 1) == BILLION * Pow(BILLION, n)
  {}

  lemma TwoUnits(x: nat, y: nat, p: nat)
    ensures (x * BILLION + y) * p == x * (BILLION * p) + y * p
    ensures (x * BILLION + y + 1) * p == x * (BILLION * p) + (y + 1) * p
  {}

  lemma TopThree(s: seq<nat>)
    requires |s| >= 3 && AreUnits(BILLION, s)
    ensures var n := |s|; var x := (s[n - 1] * BILLION + s[n - 2]) * BILLION + s[n - 3];
      x * Pow(BILLION, n - 3) <= Units(BILLION, s)
  {
    hide Pow, Units;
    var n := |s|;
    assert s[..n] == s;
    UnitsNext(BILLION, s, n - 1);
    TopTwo(s[..n - 1]);
    PowNextBill(n - 3);
    PowNextBill(n - 2);
    ThreeUnits(s[n - 1], s[n - 2], s[n - 3], Pow(BILLION, n - 3));
  }

  lemma ThreeUnits(x: nat, y: nat, z: nat, p: nat)
    ensures ((x * BILLION + y) * BILLION + z) * p == x * (BILLION * (BILLION * p)) + (y * BILLION + z) * p
  {}

  /* ---- The estimate of a quotient unit ---- */

  /** The quotient of two words. */
  function Quot(n: nat, d: nat): nat
    requires d > 0
  {
    n / d
  }

  /** A quotient of a low numerator by a high denominator is low. */
  lemma LowEstimate(n: nat, d: nat, t: nat, k: nat, acc: nat, div: nat)
    requires d > 0 && k > 0 && n * t <= acc * k && div * k <= d * t
    ensures Quot(n, d) * div <= acc
  {
    var m := n / d;
    DivBounds(n, d);
    MulMono(m * d, n, t);
    MulMono(div * k, d * t, m);
    assert m * div * k == (div * k) * m;
    assert (d * t) * m == (m * d) * t;
    MulCancel(m * div, acc, k);
  }

  /** The msu of div with two bits of the unit below, rounded up if anything else is there. */
  method DivTop(div: array<nat>, msud: nat) returns (divtop: nat)
    requires msud < div.Length && AreUnits(BILLION, div[..])
    ensures DivTopFor(div[..msud + 1], divtop)
  {
    divtop := div[msud] * 4;
    if msud > 0 {
      var d := div[msud - 1];
      if d >= 750000000 { divtop, d := divtop + 3, d - 750000000; }
      else if d >= 500000000 { divtop, d := divtop + 2, d - 500000000; }
      else if d >= 250000000 { divtop, d := divtop + 1, d - 250000000; }
      ghost var quarters := divtop - div[msud] * 4;
      var um: int := msud - 2;
      if d != 0 {
        divtop := divtop + 1;
      } else {
        while um >= 0
          invariant -1 <= um <= msud - 2 && forall i :: um < i <= msud - 2 ==> div[i] == 0
          invariant divtop == div[msud] * 4 + quarters
        {
          if div[um] != 0 {
            divtop := divtop + 1;
            break;
          }
          um := um - 1;
        }
      }
      TopCovers(div[..msud + 1], quarters, d, divtop);
    } else {
      assert div[..msud + 1] == [] + [div[0]];
      UnitsAppend(BILLION, [], div[0]);
    }
  }

  /** divtop quarters of the top unit cover the divisor. */
  ghost predicate DivTopFor(div: seq<nat>, divtop: nat) {
    && |div| > 0 && div[|div| - 1] * 4 <= divtop <= div[|div| - 1] * 4 + 4
    && 4 * Units(BILLION, div) <= divtop * Pow(BILLION, |div| - 1)
  }

  lemma TopPositive(div: seq<nat>, divtop: nat)
    requires DivTopFor(div, divtop) && div[|div| - 1] > 0
    ensures divtop > 0
  {}

  lemma TopCovers(div: seq<nat>, quarters: nat, rest: nat, divtop: nat)
    requires |div| > 1 && AreUnits(BILLION, div) && quarters <= 3
    requires div[|div| - 2] == quarters * 250000000 + rest && rest < 250000000
    requires divtop == div[|div| - 1] * 4 + quarters + (if rest != 0 then 1 else divtop - div[|div| - 1] * 4 - quarters)
    requires rest == 0 ==> 0 <= divtop - div[|div| - 1] * 4 - quarters <= 1
    requires rest == 0 && divtop == div[|div| - 1] * 4 + quarters ==> forall i :: 0 <= i < |div| - 2 ==> div[i] == 0
    ensures DivTopFor(div, divtop)
  {
    hide Pow, Units;
    var n := |div|;
    TopTwo(div);
    PowNextBill(n - 2);
    var p := Pow(BILLION, n - 2);
    var x := div[n - 1] * BILLION + div[n - 2];
    if divtop > div[n - 1] * 4 + quarters {
      MulMono(4 * (x + 1), divtop * BILLION, p);
      Quarter(x + 1, Units(BILLION, div), p);
    } else {
      ExactTop(div);
      MulMono(4 * x, divtop * BILLION, p);
      Quarter(x, Units(BILLION, div), p);
    }
    MulAssoc(divtop, BILLION, p);
  }

  lemma Quarter(x: nat, u: nat, p: nat)
    requires u <= x * p
    ensures 4 * u <= 4 * x * p
  {
    assert 4 * x * p == 4 * (x * p);
  }

  /** A number whose lower units are zero is its top two units. */
  lemma ExactTop(s: seq<nat>)
    requires |s| >= 2 && AreUnits(BILLION, s) && forall i :: 0 <= i < |s| - 2 ==> s[i] == 0
    ensures Units(BILLION, s) == (s[|s| - 1] * BILLION + s[|s| - 2]) * Pow(BILLION, |s| - 2)
  {
    hide Pow, Units;
    var n := |s|;
    assert s[..n] == s;
    UnitsNext(BILLION, s, n - 1);
    UnitsNext(BILLION, s, n - 2);
    UnitsZeros(BILLION, s[..n - 2]);
    PowNextBill(n - 2);
    TwoUnits(s[n - 1], s[n - 2], Pow(BILLION, n - 2));
  }

  /** A unit and the top three digits of the one below it. */
  function Thousands(x: nat, y: nat): nat { x * DIVHI + y / DIVLO }

  lemma ThousandsBounds(x: nat, y: nat)
    requires y < BILLION
    ensures Thousands(x, y) * DIVLO <= x * BILLION + y < (Thousands(x, y) + 1) * DIVLO
  {}

  lemma PowZero()
    ensures Pow(BILLION, 0) == 1
  {}

  lemma SingleUnit(s: seq<nat>)
    requires |s| == 1
    ensures Units(BILLION, s) == s[0]
  {
    UnitsFirst(BILLION, s);
  }

  lemma ScaleUp(x: nat, k: nat, y: nat, p: nat)
    requires x * k <= y
    ensures x * (k * p) <= y * p
  {
    MulMono(x * k, y, p);
    MulAssoc(x, k, p);
  }

  lemma ScaleDown(y: nat, x: nat, k: nat, p: nat)
    requires y <= x * k
    ensures y * p <= x * (k * p)
  {
    MulMono(y, x * k, p);
    MulAssoc(x, k, p);
  }

  /** Two units against two, exact unless there is more divisor below. */
  lemma TwoByTwo(acc: seq<nat>, div: seq<nat>, mul: nat, d: nat)
    requires |acc| == |div| >= 2 && AreUnits(BILLION, acc) && AreUnits(BILLION, div) && d > 0
    requires mul == acc[|acc| - 1] * BILLION + acc[|acc| - 2]
    requires d == div[|div| - 1] * BILLION + div[|div| - 2] + if |div| > 2 then 1 else 0
    ensures Quot(mul, d) * Units(BILLION, div) <= Units(BILLION, acc)
  {
    hide Quot, Pow, Units;
    TopTwo(acc);
    TopTwo(div);
    PowZero();
    LowEstimate(mul, d, Pow(BILLION, |acc| - 2), 1, Units(BILLION, acc), Units(BILLION, div));
  }

  lemma OneByOne(acc: seq<nat>, div: seq<nat>)
    requires |acc| == |div| == 1 && div[0] > 0
    ensures Quot(acc[0], div[0]) * Units(BILLION, div) <= Units(BILLION, acc)
  {
    SingleUnit(acc);
    SingleUnit(div);
    hide *;
    LowEstimate(acc[0], div[0], 1, 1, acc[0], div[0]);
  }

  /** Three digits of the second unit brought in on each side. */
  lemma ThousandsLow(acc: seq<nat>, div: seq<nat>, mul: nat)
    requires |acc| >= |div| >= 2 && AreUnits(BILLION, acc) && AreUnits(BILLION, div)
    requires mul * (DIVLO * Pow(BILLION, |div| - 2)) <= Units(BILLION, acc)
    ensures Quot(mul, Thousands(div[|div| - 1], div[|div| - 2]) + 1) * Units(BILLION, div) <= Units(BILLION, acc)
  {
    var n := |div|;
    ThousandsBounds(div[n - 1], div[n - 2]);
    hide Quot, Pow, Units, Thousands, BILLION, DIVLO;
    TopTwo(div);
    var p := Pow(BILLION, n - 2);
    var d := Thousands(div[n - 1], div[n - 2]) + 1;
    ScaleDown(div[n - 1] * BILLION + div[n - 2] + 1, d, DIVLO, p);
    LowEstimate(mul, d, DIVLO * p, 1, Units(BILLION, acc), Units(BILLION, div));
  }

  lemma ThousandsEqual(acc: seq<nat>, div: seq<nat>)
    requires |acc| == |div| >= 2 && AreUnits(BILLION, acc) && AreUnits(BILLION, div)
    ensures var n := |acc|;
      Quot(Thousands(acc[n - 1], acc[n - 2]), Thousands(div[n - 1], div[n - 2]) + 1) * Units(BILLION, div)
        <= Units(BILLION, acc)
  {
    var n := |acc|;
    ThousandsBounds(acc[n - 1], acc[n - 2]);
    hide Quot, Pow, Units, Thousands, BILLION, DIVLO;
    TopTwo(acc);
    ScaleUp(Thousands(acc[n - 1], acc[n - 2]), DIVLO, acc[n - 1] * BILLION + acc[n - 2], Pow(BILLION, n - 2));
    ThousandsLow(acc, div, Thousands(acc[n - 1], acc[n - 2]));
  }

  /** With a low wrap-around of the middle term the estimate only gets lower. */
  lemma ThousandsLonger(acc: seq<nat>, div: seq<nat>)
    requires |acc| == |div| + 1 >= 3 && AreUnits(BILLION, acc) && AreUnits(BILLION, div)
    ensures var n := |acc|;
      Quot(LongThousands(acc[n - 1], acc[n - 2], acc[n - 3]), Thousands(div[n - 2], div[n - 3]) + 1)
        * Units(BILLION, div)
      <= Units(BILLION, acc)
  {
    hide Quot, Pow, Units, Thousands, LongThousands, BILLION, DIVLO;
    var n := |acc|;
    var x := (acc[n - 1] * BILLION + acc[n - 2]) * BILLION + acc[n - 3];
    var mul := LongThousands(acc[n - 1], acc[n - 2], acc[n - 3]);
    LongThousandsScaled(acc[n - 1], acc[n - 2], acc[n - 3]);
    TopThree(acc);
    ScaleUp(mul, DIVLO, x, Pow(BILLION, n - 3));
    ThousandsLow(acc, div, mul);
  }

  lemma LongThousandsScaled(x: nat, y: nat, z: nat)
    ensures LongThousands(x, y, z) * DIVLO <= (x * BILLION + y) * BILLION + z
  {
    hide LongThousands;
    LongThousandsLow(x, y, z);
    DivBounds(z, DIVLO);
  }

  /** Against the quarters of the top unit of the divisor. */
  lemma QuartersLow(acc: seq<nat>, div: seq<nat>, divtop: nat, x: nat)
    requires DivTopFor(div, divtop) && divtop > 0 && x * Pow(BILLION, |div| - 1) <= Units(BILLION, acc)
    ensures Quot(4 * x, divtop) * Units(BILLION, div) <= Units(BILLION, acc)
  {
    hide Quot, Pow, Units;
    var p := Pow(BILLION, |div| - 1);
    assert 4 * x * p == 4 * (x * p);
    LowEstimate(4 * x, divtop, p, 4, Units(BILLION, acc), Units(BILLION, div));
  }

  /* The five divisions of words that an estimate may be. None of their words wraps, save one product
     that may only become lower. */

  lemma NoWrap32(x: nat)
    requires x < TWO32
    ensures Wrap32(x) == x
  {}

  lemma NoWrap64(x: nat)
    requires x < TWO64
    ensures Wrap64(x) == x
  {}

  lemma WrapsLow(x: nat)
    ensures Wrap32(x) <= x && Wrap64(x) <= x && Wrap32(x) < TWO32
  {}

  method PairQuotient(x: nat, y: nat, u: nat, v: nat, sticky: bool) returns (m: nat)
    requires x < BILLION && y < BILLION && u < BILLION && v < BILLION && (u > 0 || v > 0)
    ensures m == Quot(x * BILLION + y, u * BILLION + v + if sticky then 1 else 0)
  {
    hide Wrap64, Quot;
    NoWrap64(x * BILLION + y);
    NoWrap64(u * BILLION + v);
    NoWrap64(u * BILLION + v + 1);
    var mul := Wrap64(x * BILLION + y);
    var d := Wrap64(u * BILLION + v);
    if sticky { d := Wrap64(d + 1); }
    m := Quot(mul, d);
  }

  lemma ThousandsWord(x: nat, y: nat)
    requires x < DIVLO && y < BILLION
    ensures Wrap32(x * DIVHI + y / DIVLO) == Thousands(x, y)
    ensures Wrap32(x * DIVHI + y / DIVLO + 1) == Thousands(x, y) + 1
  {
    hide Wrap32;
    var t := y / DIVLO;
    DivLt(y, DIVLO, 1000);
    assert x * DIVHI + t < BILLION;
    NoWrap32(x * DIVHI + t);
    NoWrap32(x * DIVHI + t + 1);
  }

  /** The product with the middle unit may wrap. */
  function LongThousands(x: nat, y: nat, z: nat): nat {
    Wrap64(x * DIVHI * BILLION + Wrap32(y * DIVHI) + z / DIVLO)
  }

  lemma LongThousandsLow(x: nat, y: nat, z: nat)
    ensures LongThousands(x, y, z) <= x * DIVHI * BILLION + y * DIVHI + z / DIVLO
  {
    hide Wrap32, Wrap64;
    WrapsLow(y * DIVHI);
    WrapsLow(x * DIVHI * BILLION + Wrap32(y * DIVHI) + z / DIVLO);
  }

  method ThousandsQuotient(x: nat, y: nat, u: nat, v: nat) returns (m: nat)
    requires x < DIVLO && y < BILLION && u < DIVLO && v < BILLION
    ensures m == Quot(Thousands(x, y), Thousands(u, v) + 1)
  {
    ThousandsWord(x, y);
    ThousandsWord(u, v);
    assert DIVLO > 0;
    hide Wrap32, Quot, Thousands, DIVLO, DIVHI, BILLION;
    m := Quot(Wrap32(x * DIVHI + y / DIVLO), Wrap32(u * DIVHI + v / DIVLO + 1));
  }

  method LongThousandsQuotient(x: nat, y: nat, z: nat, u: nat, v: nat) returns (m: nat)
    requires u < DIVLO && v < BILLION
    ensures m == Quot(LongThousands(x, y, z), Thousands(u, v) + 1)
  {
    ThousandsWord(u, v);
    assert DIVLO > 0;
    hide Wrap32, Wrap64, Quot, Thousands, DIVLO, DIVHI, BILLION;
    m := Quot(Wrap64(x * DIVHI * BILLION + Wrap32(y * DIVHI) + z / DIVLO), Wrap32(u * DIVHI + v / DIVLO + 1));
  }

  method QuartersQuotient(x: nat, divtop: nat) returns (m: nat)
    requires x < BILLION && divtop > 0
    ensures m == Quot(4 * x, divtop)
  {
    hide Wrap32, Quot;
    NoWrap32(x * 4);
    m := Quot(Wrap32(x * 4), divtop);
  }

  method LongQuartersQuotient(x: nat, y: nat, divtop: nat) returns (m: nat)
    requires x < BILLION && y < BILLION && divtop > 0
    ensures m == Quot(4 * (x * BILLION + y), divtop)
  {
    hide Wrap32, Wrap64, Quot;
    NoWrap32(BILLION * 4);
    NoWrap32(y * 4);
    NoWrap64(x * (BILLION * 4) + y * 4);
    var mul := Wrap64(x * Wrap32(BILLION * 4) + Wrap32(y * 4));
    m := Quot(mul, divtop);
  }

  /** The estimate when the accumulator and the divisor have equally many units. */
  method EstimateEqual(acc: seq<nat>, div: seq<nat>, divtop: nat, quad: bool, use64: bool) returns (multiplier: nat)
    requires |acc| == |div| > 0 && AreUnits(BILLION, acc) && AreUnits(BILLION, div) && div[|div| - 1] != 0
    requires DivTopFor(div, divtop) && (!quad ==> |div| <= 2)
    ensures multiplier * Units(BILLION, div) <= Units(BILLION, acc)
  {
    TopPositive(div, divtop);
    hide Quot, Pow, Units, DIVLO, DIVHI, BILLION, Thousands, DivTopFor;
    var n := |div|;
    var msua, msud := acc[n - 1], div[n - 1];
    if use64 {
      if n > 1 {
        multiplier := PairQuotient(msua, acc[n - 2], msud, div[n - 2], quad && n > 2);
        TwoByTwo(acc, div, msua * BILLION + acc[n - 2], msud * BILLION + div[n - 2] + if n > 2 then 1 else 0);
      } else {
        multiplier := Quot(msua, msud);
        OneByOne(acc, div);
      }
    } else if n > 1 && msua < DIVLO && msud < DIVLO {
      multiplier := ThousandsQuotient(msua, acc[n - 2], msud, div[n - 2]);
      ThousandsEqual(acc, div);
    } else {
      multiplier := QuartersQuotient(msua, divtop);
      TopOne(acc);
      QuartersLow(acc, div, divtop, msua);
    }
  }

  /** The estimate when the accumulator is one unit longer than the divisor. */
  method EstimateLonger(acc: seq<nat>, div: seq<nat>, divtop: nat, use64: bool) returns (multiplier: nat)
    requires |acc| == |div| + 1 > 1 && AreUnits(BILLION, acc) && AreUnits(BILLION, div) && div[|div| - 1] != 0
    requires DivTopFor(div, divtop) && Units(BILLION, acc) < Units(BILLION, div) * BILLION
    ensures multiplier * Units(BILLION, div) <= Units(BILLION, acc)
  {
    TopPositive(div, divtop);
    hide Quot, Pow, Units, DIVLO, DIVHI, BILLION, Thousands, LongThousands, Wrap32, DivTopFor;
    var n := |acc|;
    var msua, msud := acc[n - 1], div[n - 2];
    if use64 {
      if n > 2 && msua < DIVLO && msud < DIVLO {
        multiplier := LongThousandsQuotient(msua, acc[n - 2], acc[n - 3], msud, div[n - 3]);
        ThousandsLonger(acc, div);
      } else if n == 2 {
        multiplier := PairQuotient(msua, acc[0], 0, msud, false);
        TwoByOne(acc, div);
      } else {
        multiplier := LongQuartersQuotient(msua, acc[n - 2], divtop);
        TopTwo(acc);
        QuartersLow(acc, div, divtop, msua * BILLION + acc[n - 2]);
      }
    } else {
      ShortQuarters(acc, div, divtop);
      ShortWord(msua, divtop);
      multiplier := Wrap32(msua * (Wrap32(BILLION * 4) / divtop));
    }
  }

  lemma TwoByOne(acc: seq<nat>, div: seq<nat>)
    requires |acc| == 2 && |div| == 1 && div[0] > 0 && AreUnits(BILLION, acc)
    ensures Quot(acc[1] * BILLION + acc[0], div[0]) * Units(BILLION, div) <= Units(BILLION, acc)
  {
    TopTwo(acc);
    SingleUnit(div);
    hide *;
    LowEstimate(acc[1] * BILLION + acc[0], div[0], 1, 1, acc[1] * BILLION + acc[0], div[0]);
  }

  /** The 32-bit build's estimate neither overflows its word nor exceeds the quotient. */
  lemma ShortQuarters(acc: seq<nat>, div: seq<nat>, divtop: nat)
    requires |acc| == |div| + 1 > 1 && AreUnits(BILLION, acc) && DivTopFor(div, divtop) && divtop > 0
    requires Units(BILLION, acc) < Units(BILLION, div) * BILLION
    ensures var m := acc[|acc| - 1] * (BILLION * 4 / divtop);
      m < BILLION && m * Units(BILLION, div) <= Units(BILLION, acc)
  {
    hide Pow, Units, BILLION;
    var n := |acc|;
    TopOne(acc);
    PowNextBill(n - 2);
    hide *;
    ShortQuartersOf(acc[n - 1], Pow(BILLION, n - 2), Units(BILLION, acc), Units(BILLION, div), divtop, BILLION);
  }

  lemma ShortQuartersOf(x: nat, p: nat, a: nat, d: nat, divtop: nat, b: nat)
    requires p > 0 && b > 0 && divtop > 0 && x * (b * p) <= a < d * b && 4 * d <= divtop * p
    ensures var m := x * (b * 4 / divtop); m < b && m * d <= a
  {
    TopBelow(x, p, a, d, divtop, b);
    DivBounds(b * 4, divtop);
    ShortProduct(x, b * 4 / divtop, p, a, d, divtop, b);
  }

  lemma ShortWord(x: nat, divtop: nat)
    requires divtop > 0 && x * (BILLION * 4 / divtop) < BILLION
    ensures Wrap32(x * (Wrap32(BILLION * 4) / divtop)) == x * (BILLION * 4 / divtop)
  {
    var e := BILLION * 4 / divtop;
    assert Wrap32(BILLION * 4) == BILLION * 4;
    var y := x * e;
    assert Wrap32(y) == y;
  }

  /** The top unit of a remainder is below a quarter of divtop. */
  lemma TopBelow(x: nat, p: nat, a: nat, d: nat, divtop: nat, b: nat)
    requires p > 0 && b > 0 && x * (b * p) <= a < d * b && 4 * d <= divtop * p
    ensures 4 * x < divtop
  {
    assert (4 * x) * (b * p) == 4 * (x * (b * p));
    MulMono(4 * d, divtop * p, b);
    assert divtop * p * b == divtop * (b * p);
    MulPos(b, p);
    MulCancel(4 * x, divtop, b * p);
  }

  lemma ShortProduct(x: nat, e: nat, p: nat, a: nat, d: nat, divtop: nat, b: nat)
    requires e * divtop <= 4 * b && 4 * x < divtop && x * (b * p) <= a && 4 * d <= divtop * p && b > 0
    ensures x * e < b && (x * e) * d <= a
  {
    var m := x * e;
    ShortSmall(x, e, divtop, b);
    MulMono(4 * d, divtop * p, m);
    Swap4(divtop, p, x, e);
    MulMono(e * divtop, 4 * b, x * p);
    Swap3(b, x, p);
    assert (4 * d) * m == 4 * (m * d);
  }

  lemma ShortSmall(x: nat, e: nat, divtop: nat, b: nat)
    requires e * divtop <= 4 * b && 4 * x < divtop && b > 0
    ensures x * e < b
  {
    if e > 0 {
      MulStrict(4 * x, divtop, e);
      assert 4 * x * e == 4 * (x * e);
      assert divtop * e == e * divtop;
    }
  }

  lemma Swap4(t: nat, p: nat, x: nat, e: nat)
    ensures (t * p) * (x * e) == (e * t) * (x * p)
  {
    MulAssoc(t * p, x, e);
    MulAssoc(t, p, x);
    assert (t * p) * x == t * (x * p) by { MulAssoc(t, x, p); }
    assert (t * (x * p)) * e == (e * t) * (x * p) by { MulAssoc(e, t, x * p); }
  }

  lemma Swap3(b: nat, x: nat, p: nat)
    ensures (4 * b) * (x * p) == 4 * (x * (b * p))
  {
    MulAssoc(b, x, p);
    MulAssoc(x, b, p);
    MulAssoc(4, b, x * p);
  }

  /* ---- acc - div * multiplier, in place ---- */

  /** One product of units with the carry added, split into a unit and the next carry. */
  method SplitProduct(multiplier: nat, ud: nat, carry: nat, use64: bool) returns (lo: nat, next: nat)
    requires multiplier < BILLION && ud < BILLION && carry < BILLION
    ensures lo < BILLION && multiplier * ud + carry == next * BILLION + lo
  {
    UnitProduct(multiplier, ud);
    if use64 {
      var sub := multiplier * ud + carry;
      if sub < BILLION {
        lo, next := sub, 0;
      } else {
        lo, next := Split64(sub, false);
      }
    } else {
      lo, next := SplitProduct32(multiplier, ud, carry);
    }
  }

  method SplitProduct32(multiplier: nat, ud: nat, carry: nat) returns (lo: nat, next: nat)
    requires multiplier < BILLION && ud < BILLION && carry < BILLION && multiplier * ud <= UNITPRODUCT
    ensures lo < BILLION && multiplier * ud + carry == next * BILLION + lo
  {
    hide Wrap32, LongMul32Hi;
    LongMul32HiExact(ud, multiplier);
    var x := multiplier * ud;
    assert ud * multiplier == x;
    var hi := LongMul32Hi(ud, multiplier);
    lo := Wrap32(multiplier * ud);
    AddWord(x, hi, lo, carry);
    lo := Wrap32(lo + carry);
    next := hi + if lo < carry then 1 else 0;
    if next != 0 || lo >= BILLION {
      lo, next := Split32(next, lo, false);
    }
  }

  /** Adding to a pair of words: the carry shows as a low word below the addend. */
  lemma AddWord(x: nat, hi: nat, lo: nat, carry: nat)
    requires hi * TWO32 + lo == x && lo == Wrap32(x) && carry < BILLION
    ensures var low := Wrap32(lo + carry);
      low < TWO32 && (hi + if low < carry then 1 else 0) * TWO32 + low == x + carry
  {}

  /** Subtracts the low part from one accumulator unit, borrowing from the carry. */
  method SubtractUnit(ua: nat, multiplier: nat, ud: nat, carry: nat, use64: bool) returns (ua': nat, carry': nat)
    requires ua < BILLION && multiplier < BILLION && ud < BILLION && carry < BILLION
    ensures ua' < BILLION && carry' < BILLION && ua' + multiplier * ud + carry == ua + carry' * BILLION
  {
    UnitProduct(multiplier, ud);
    var lo;
    lo, carry' := SplitProduct(multiplier, ud, carry, use64);
    CarrySmall(multiplier * ud, carry, carry', lo);
    ua' := ua;
    if lo > ua {
      ua', carry' := ua' + BILLION, carry' + 1;
    }
    ua' := ua' - lo;
  }

  /** There is always room in the carry for a borrow. */
  lemma CarrySmall(x: nat, carry: nat, next: nat, lo: nat)
    requires x <= UNITPRODUCT && carry < BILLION && x + carry == next * BILLION + lo
    ensures next < BILLION && (lo > 0 ==> next + 1 < BILLION)
  {}

  /** Subtracts multiplier * div[..u] from the u units at lsua; what is owed is the carry. */
  method SubtractProduct(acc: array<nat>, lsua: nat, div: array<nat>, u: nat, multiplier: nat, use64: bool)
    returns (carry: nat)
    requires acc != div && lsua + u <= acc.Length && u <= div.Length && multiplier < BILLION
    requires AreUnits(BILLION, acc[lsua..lsua + u]) && AreUnits(BILLION, div[..u])
    modifies acc
    ensures carry < BILLION && AreUnits(BILLION, acc[lsua..lsua + u])
    ensures Units(BILLION, acc[lsua..lsua + u]) + multiplier * Units(BILLION, div[..u])
         == old(Units(BILLION, acc[lsua..lsua + u])) + carry * Pow(BILLION, u)
    ensures forall i :: 0 <= i < acc.Length && !(lsua <= i < lsua + u) ==> acc[i] == old(acc[i])
  {
    hide Units, Pow;
    ghost var s, d := acc[lsua..lsua + u], div[..u];
    assert forall i :: lsua <= i < lsua + u ==> acc[i] == s[i - lsua];
    carry := 0;
    var j := 0;
    OwedStart(d, s, acc[lsua..lsua], multiplier);
    while j < u
      invariant j <= u && carry < BILLION && div[..u] == d
      invariant AreUnits(BILLION, acc[lsua..lsua + j])
      invariant Owed(acc[lsua..lsua + j], d[..j], s[..j], multiplier, carry)
      invariant forall i :: lsua + j <= i < lsua + u ==> acc[i] == s[i - lsua]
      invariant forall i :: 0 <= i < acc.Length && !(lsua <= i < lsua + u) ==> acc[i] == old(acc[i])
    {
      ghost var t, before := acc[lsua..lsua + j], carry;
      var unit;
      unit, carry := SubtractUnit(acc[lsua + j], multiplier, div[j], carry, use64);
      assert acc[lsua + j] == s[j];
      acc[lsua + j] := unit;
      assert acc[lsua..lsua + (j + 1)] == t + [unit];
      OwedStep(t, d, s, j, multiplier, before, unit, carry);
      j := j + 1;
    }
    assert d[..u] == d && s[..u] == s;
    OwedIs(acc[lsua..lsua + u], d, s, multiplier, carry);
  }

  /** t is s less multiplier * d, give or take the carry owed. */
  ghost predicate Owed(t: seq<nat>, d: seq<nat>, s: seq<nat>, multiplier: nat, carry: nat) {
    Units(BILLION, t) + multiplier * Units(BILLION, d) == Units(BILLION, s) + carry * Pow(BILLION, |s|)
  }

  lemma OwedIs(t: seq<nat>, d: seq<nat>, s: seq<nat>, multiplier: nat, carry: nat)
    ensures Owed(t, d, s, multiplier, carry) <==>
      Units(BILLION, t) + multiplier * Units(BILLION, d) == Units(BILLION, s) + carry * Pow(BILLION, |s|)
  {}

  lemma OwedStart(d: seq<nat>, s: seq<nat>, t: seq<nat>, multiplier: nat)
    requires t == []
    ensures Owed(t, d[..0], s[..0], multiplier, 0)
  {
    assert d[..0] == [] && s[..0] == [];
  }

  lemma OwedStep(t: seq<nat>, d: seq<nat>, s: seq<nat>, j: nat, multiplier: nat, carry: nat, unit: nat, carry': nat)
    requires j < |d| == |s| && |t| == j && Owed(t, d[..j], s[..j], multiplier, carry)
    requires unit + multiplier * d[j] + carry == s[j] + carry' * BILLION
    ensures Owed(t + [unit], d[..j + 1], s[..j + 1], multiplier, carry')
  {
    hide Units, Pow;
    UnitsAppend(BILLION, t, unit);
    UnitsNext(BILLION, d, j);
    UnitsNext(BILLION, s, j);
    PowNextBill(j);
    OwedArith(unit, multiplier, d[j], carry, s[j], carry', Pow(BILLION, j), Units(BILLION, d[..j]));
  }

  lemma OwedArith(unit: nat, m: nat, dj: nat, carry: nat, sj: nat, carry': nat, p: nat, d: nat)
    requires unit + m * dj + carry == sj + carry' * BILLION
    ensures unit * p + m * (d + dj * p) + carry * p == sj * p + carry' * (BILLION * p) + m * d
  {
    assert m * (d + dj * p) == m * d + (m * dj) * p;
    assert (unit + m * dj + carry) * p == unit * p + (m * dj) * p + carry * p;
    assert (sj + carry' * BILLION) * p == sj * p + carry' * (BILLION * p);
  }

  /** The whole subtraction. A low multiplier leaves no borrow: what is owed comes out of the top unit
      when the accumulator is longer than the divisor, and nothing is owed when it is not. */
  method SubtractMultiple(acc: array<nat>, lsua: nat, msua: nat, div: array<nat>, u: nat, multiplier: nat, use64: bool)
    requires acc != div && lsua <= msua < acc.Length && u <= div.Length && multiplier < BILLION
    requires msua - lsua + 1 == u || msua - lsua == u
    requires AreUnits(BILLION, acc[lsua..msua + 1]) && AreUnits(BILLION, div[..u])
    requires multiplier * Units(BILLION, div[..u]) <= Units(BILLION, acc[lsua..msua + 1])
    modifies acc
    ensures AreUnits(BILLION, acc[lsua..msua + 1])
    ensures Units(BILLION, acc[lsua..msua + 1])
         == old(Units(BILLION, acc[lsua..msua + 1])) - multiplier * Units(BILLION, div[..u])
    ensures forall i :: 0 <= i < acc.Length && !(lsua <= i <= msua) ==> acc[i] == old(acc[i])
  {
    hide Units, Pow;
    ghost var s := acc[lsua..msua + 1];
    assert s[..u] == acc[lsua..lsua + u];
    assert forall i :: lsua <= i <= msua ==> acc[i] == s[i - lsua];
    var carry := SubtractProduct(acc, lsua, div, u, multiplier, use64);
    ghost var t := acc[lsua..lsua + u];
    ghost var owed := multiplier * Units(BILLION, div[..u]);
    if msua - lsua == u {
      assert acc[lsua + u] == s[u];
      TopPays(s, t, u, owed, carry);
      if carry != 0 { acc[lsua + u] := acc[lsua + u] - carry; }
      assert acc[lsua..msua + 1] == t + [s[u] - carry];
    } else {
      assert s[..u] == s && acc[lsua..msua + 1] == t;
      NothingOwed(s, t, owed, carry);
    }
  }

  lemma NothingOwed(s: seq<nat>, t: seq<nat>, owed: nat, carry: nat)
    requires AreUnits(BILLION, t) && |t| == |s| && owed <= Units(BILLION, s)
    requires Units(BILLION, t) + owed == Units(BILLION, s) + carry * Pow(BILLION, |s|)
    ensures carry == 0 && Units(BILLION, t) == Units(BILLION, s) - owed
  {
    hide Units, Pow;
    UnitsBound(BILLION, t);
    if carry > 0 { MulMono(1, carry, Pow(BILLION, |s|)); }
    assert 0 * Pow(BILLION, |s|) == 0;
  }

  lemma TopPays(s: seq<nat>, t: seq<nat>, u: nat, owed: nat, carry: nat)
    requires |s| == u + 1 && |t| == u && AreUnits(BILLION, t) && AreUnits(BILLION, s) && owed <= Units(BILLION, s)
    requires Units(BILLION, t) + owed == Units(BILLION, s[..u]) + carry * Pow(BILLION, u)
    ensures carry <= s[u] && AreUnits(BILLION, t + [s[u] - carry])
    ensures Units(BILLION, t + [s[u] - carry]) == Units(BILLION, s) - owed
  {
    hide Units, Pow;
    assert s[..u + 1] == s;
    UnitsNext(BILLION, s, u);
    UnitsBound(BILLION, t);
    var p := Pow(BILLION, u);
    if carry > s[u] { MulMono(1, carry - s[u], p); }
    assert (s[u] - carry) * p == s[u] * p - carry * p;
    UnitsAppend(BILLION, t, s[u] - carry);
  }

  /* ---- One quotient unit ---- */

  /** Strips zero units from the top of the accumulator; all of them if it is zero. */
  method StripTop(acc: array<nat>, lsua: nat, msua: nat) returns (top: int)
    requires lsua <= msua < acc.Length
    ensures lsua - 1 <= top <= msua && (top >= lsua ==> acc[top] != 0)
    ensures Units(BILLION, acc[lsua..top + 1]) == Units(BILLION, acc[lsua..msua + 1])
  {
    hide Units;
    top := msua;
    while top >= lsua && acc[top] == 0
      invariant lsua - 1 <= top <= msua
      invariant Units(BILLION, acc[lsua..top + 1]) == Units(BILLION, acc[lsua..msua + 1])
    {
      ghost var s := acc[lsua..top + 1];
      TrimUnits(s, top - lsua);
      assert acc[lsua..top] == s[..top - lsua];
      top := top - 1;
    }
  }

  /** Compares equally many units from the top down; a and d are the first that differ, or the last. */
  method CompareUnits(acc: array<nat>, lsua: nat, msua: nat, div: array<nat>, u: nat) returns (a: nat, d: nat)
    requires lsua <= msua < acc.Length && 0 < u <= div.Length && msua - lsua + 1 == u
    requires AreUnits(BILLION, acc[lsua..msua + 1]) && AreUnits(BILLION, div[..u])
    ensures d > a ==> Units(BILLION, acc[lsua..msua + 1]) < Units(BILLION, div[..u])
    ensures d == a ==> Units(BILLION, acc[lsua..msua + 1]) == Units(BILLION, div[..u])
    ensures d < a ==> Units(BILLION, acc[lsua..msua + 1]) > Units(BILLION, div[..u])
  {
    hide Units;
    ghost var s, t := acc[lsua..msua + 1], div[..u];
    var i := u - 1;
    assert s[i] == acc[lsua + i] && t[i] == div[i];
    while i > 0 && div[i] == acc[lsua + i]
      invariant i < u && s[i] == acc[lsua + i] && t[i] == div[i]
      invariant forall j :: i < j < u ==> s[j] == t[j]
    {
      i := i - 1;
      assert s[i] == acc[lsua + i] && t[i] == div[i];
    }
    a, d := acc[lsua + i], div[i];
    if d > a { FirstDifference(s, t, i); }
    if d < a { FirstDifference(t, s, i); }
    if d == a { assert s == t; }
  }

  lemma {:induction false} FirstDifference(s: seq<nat>, t: seq<nat>, i: nat)
    requires |s| == |t| && i < |s| && AreUnits(BILLION, s) && s[i] < t[i] && forall j :: i < j < |s| ==> s[j] == t[j]
    ensures Units(BILLION, s) < Units(BILLION, t)
  {
    hide Units, Pow;
    var n := |s| - 1;
    assert s[..n + 1] == s && t[..n + 1] == t;
    UnitsNext(BILLION, s, n);
    UnitsNext(BILLION, t, n);
    if i < n {
      FirstDifference(s[..n], t[..n], i);
    } else {
      UnitsBound(BILLION, s[..n]);
      OneMore(s[n], Pow(BILLION, n));
      MulMono(s[n] + 1, t[n], Pow(BILLION, n));
    }
  }

  /** A divisor held in its u low units, without leading zeros. */
  ghost predicate IsDivisor(div: array<nat>, u: nat, d: nat)
    reads div
  {
    0 < u <= div.Length && AreUnits(BILLION, div[..u]) && div[u - 1] != 0 && Units(BILLION, div[..u]) == d > 0
  }

  lemma DivisorSize(div: array<nat>, u: nat, d: nat)
    requires IsDivisor(div, u, d)
    ensures Pow(BILLION, u - 1) <= d < Pow(BILLION, u)
  {
    hide Units, Pow;
    TopOne(div[..u]);
    UnitsBound(BILLION, div[..u]);
    MulMono(1, div[u - 1], Pow(BILLION, u - 1));
  }

  /** How many units a remainder has, against the divisor. */
  lemma UnitCounts(s: seq<nat>, d: nat, u: nat)
    requires AreUnits(BILLION, s) && u > 0 && Pow(BILLION, u - 1) <= d < Pow(BILLION, u)
    ensures |s| < u ==> Units(BILLION, s) < d
    ensures |s| > u && s[|s| - 1] != 0 ==> d < Units(BILLION, s)
    ensures |s| > u && s[|s| - 1] != 0 && Units(BILLION, s) < d * BILLION ==> |s| == u + 1
  {
    hide Units, Pow;
    UnitsBound(BILLION, s);
    if |s| < u {
      PowMono(BILLION, |s|, u - 1);
    } else if |s| > u {
      TopOne(s);
      if s[|s| - 1] != 0 { MulMono(1, s[|s| - 1], Pow(BILLION, |s| - 1)); }
      PowMono(BILLION, u, |s| - 1);
      PowNextBill(u);
      if |s| > u + 1 { PowMono(BILLION, u + 1, |s| - 1); }
    }
  }

  /** Estimates and subtracts once. */
  method SubtractOnce(acc: array<nat>, lsua: nat, msua: nat, div: array<nat>, u: nat, ghost d: nat, divtop: nat,
                      quad: bool, use64: bool) returns (multiplier: nat)
    requires acc != div && lsua <= msua < acc.Length && IsDivisor(div, u, d) && DivTopFor(div[..u], divtop)
    requires !quad ==> u <= 2
    requires AreUnits(BILLION, acc[lsua..msua + 1])
    requires d <= Units(BILLION, acc[lsua..msua + 1]) < d * BILLION
    requires msua - lsua + 1 == u || msua - lsua == u
    modifies acc
    ensures multiplier > 0 && AreUnits(BILLION, acc[lsua..msua + 1])
    ensures Units(BILLION, acc[lsua..msua + 1]) == old(Units(BILLION, acc[lsua..msua + 1])) - multiplier * d
    ensures forall i :: 0 <= i < acc.Length && !(lsua <= i <= msua) ==> acc[i] == old(acc[i])
  {
    hide Units, Pow, DivTopFor;
    var accs, divs := acc[lsua..msua + 1], div[..u];
    if |accs| == u {
      multiplier := EstimateEqual(accs, divs, divtop, quad, use64);
    } else {
      multiplier := EstimateLonger(accs, divs, divtop, use64);
    }
    if multiplier == 0 { multiplier := 1; }
    MulCancel(multiplier, BILLION, d);
    assert multiplier * d < BILLION * d;
    SubtractMultiple(acc, lsua, msua, div, u, multiplier, use64);
  }

  lemma ZeroUnits(s: seq<nat>, t: seq<nat>)
    requires |s| > 0 && t == [] && Units(BILLION, t) == Units(BILLION, s)
    ensures s[0] == 0 && Units(BILLION, s[..1]) == 0 && Units(BILLION, s) == 0
  {
    hide Units;
    UnitsZeros(BILLION, t);
    UnitsZeros(BILLION, s);
    UnitsZeros(BILLION, s[..1]);
  }

  /** One pass of the inner loop: strips zero units, then compares, estimates and subtracts, unless
      the remainder is already below the divisor. */
  method InnerPass(acc: array<nat>, lsua: nat, msua0: nat, div: array<nat>, u: nat, ghost d: nat, divtop: nat,
                   quad: bool, use64: bool) returns (done: bool, added: nat, msua: nat)
    requires acc != div && lsua <= msua0 < acc.Length && IsDivisor(div, u, d) && DivTopFor(div[..u], divtop)
    requires !quad ==> u <= 2
    requires AreUnits(BILLION, acc[..]) && Units(BILLION, acc[lsua..msua0 + 1]) < d * BILLION
    modifies acc
    ensures lsua <= msua <= msua0 && AreUnits(BILLION, acc[..])
    ensures old(Units(BILLION, acc[lsua..msua0 + 1])) == added * d + Units(BILLION, acc[lsua..msua + 1])
    ensures done ==> Units(BILLION, acc[lsua..msua + 1]) < d && (acc[msua] == 0 ==> msua == lsua)
    ensures !done ==> added > 0
    ensures forall i :: 0 <= i < lsua ==> acc[i] == old(acc[i])
  {
    hide Units, Pow, DivTopFor, IsDivisor;
    assert 0 * d == 0 && 1 * d == d;
    added := 0;
    DivisorForm(div, u, d);
    DivisorSize(div, u, d);
    var top := StripTop(acc, lsua, msua0);
    var accunits := top - lsua + 1;
    UnitCounts(acc[lsua..top + 1], d, u);
    if accunits < u {
      done := true;
      if accunits == 0 {
        ghost var z := acc[lsua..msua0 + 1];
        assert acc[lsua..top + 1] == [];
        ZeroUnits(z, []);
        assert z[..1] == acc[lsua..lsua + 1] && z[0] == acc[lsua];
        msua := top + 1;
      } else {
        msua := top;
      }
      return;
    }
    msua := top;
    if accunits == u {
      var ua, ud := CompareUnits(acc, lsua, msua, div, u);
      if ud > ua { done := true; return; }
      if ud == ua {
        added, done, msua := added + 1, true, lsua;
        acc[msua] := 0;
        UnitsZeros(BILLION, acc[lsua..msua + 1]);
        return;
      }
    }
    done := false;
    added := SubtractOnce(acc, lsua, msua, div, u, d, divtop, quad, use64);
    assert forall i :: lsua <= i <= msua ==> acc[i] == acc[lsua..msua + 1][i - lsua];
  }

  lemma DivisorForm(div: array<nat>, u: nat, d: nat)
    requires IsDivisor(div, u, d)
    ensures 0 < u <= div.Length && AreUnits(BILLION, div[..u]) && Units(BILLION, div[..u]) == d > 0
  {}

  /** The inner loop: the quotient unit of the accumulator acc[lsua..msua], leaving the remainder. */
  method QuotientUnit(acc: array<nat>, lsua: nat, msua0: nat, div: array<nat>, u: nat, ghost d: nat, divtop: nat,
                      quad: bool, use64: bool) returns (q: nat, msua: nat)
    requires acc != div && lsua <= msua0 < acc.Length && IsDivisor(div, u, d) && DivTopFor(div[..u], divtop)
    requires !quad ==> u <= 2
    requires AreUnits(BILLION, acc[..]) && Units(BILLION, acc[lsua..msua0 + 1]) < d * BILLION
    modifies acc
    ensures lsua <= msua <= msua0 && AreUnits(BILLION, acc[..]) && q < BILLION
    ensures old(Units(BILLION, acc[lsua..msua0 + 1])) == q * d + Units(BILLION, acc[lsua..msua + 1])
    ensures Units(BILLION, acc[lsua..msua + 1]) < d
    ensures acc[msua] == 0 ==> msua == lsua
    ensures forall i :: 0 <= i < lsua ==> acc[i] == old(acc[i])
  {
    hide Units, Pow, DivTopFor;
    ghost var r := Units(BILLION, acc[lsua..msua0 + 1]);
    q, msua := 0, msua0;
    var done := false;
    while !done
      invariant lsua <= msua <= msua0 && AreUnits(BILLION, acc[..])
      invariant r == q * d + Units(BILLION, acc[lsua..msua + 1])
      invariant done ==> Units(BILLION, acc[lsua..msua + 1]) < d && (acc[msua] == 0 ==> msua == lsua)
      invariant IsDivisor(div, u, d) && div[..u] == old(div[..u])
      invariant forall i :: 0 <= i < lsua ==> acc[i] == old(acc[i])
      decreases !done, Units(BILLION, acc[lsua..msua + 1])
    {
      MulMono(0, q, d);
      var added;
      done, added, msua := InnerPass(acc, lsua, msua, div, u, d, divtop, quad, use64);
      AddedUnits(q, added, d);
      q := q + added;
    }
    MulCancel(q, BILLION, d);
  }

  lemma AddedUnits(q: nat, added: nat, d: nat)
    requires d > 0
    ensures (q + added) * d == q * d + added * d
    ensures added > 0 ==> added * d > 0
  {
    if added > 0 { MulPos(added, d); }
  }

  /* ---- The whole quotient ---- */

  /** Digits of a quotient that may still be zero. */
  ghost function Significant(c: nat): nat {
    if c == 0 then 0 else NumDigits(c)
  }

  /** How many digits a unit has, by comparing it with the powers of ten up to 10^9. */
  method CountDigits(unit: nat) returns (n: nat)
    requires 0 < unit < BILLION
    ensures n == NumDigits(unit) && 1 <= n <= 9
  {
    n := 0;
    SmallPowers();
    while unit >= Pow(10, n)
      invariant n > 0 ==> Pow(10, n - 1) <= unit
      invariant n <= 9
      decreases 9 - n
    {
      if n == 9 { assert false; }
      n := n + 1;
    }
    NumDigitsIs(unit, n);
  }

  lemma NineMoreDigits(q: nat, c: nat)
    requires q < BILLION && c > 0
    ensures NumDigits(c * BILLION + q) == NumDigits(c) + 9
  {
    hide NumDigits;
    var n := NumDigits(c);
    NumDigitsBounds(c);
    SmallPowers();
    PowAdd(10, n, 9);
    PowAdd(10, n - 1, 9);
    hide Pow;
    MulMono(Pow(10, n - 1), c, BILLION);
    MulMono(c + 1, Pow(10, n), BILLION);
    NumDigitsIs(c * BILLION + q, n + 9);
  }

  /** Puts a unit at lsuq and moves down, unless the quotient has not started yet. */
  method StoreUnit(quo: array<nat>, lsuq: nat, q: nat, quodigits: nat) returns (lsuq': int, quodigits': nat)
    requires 0 <= lsuq < quo.Length && q < BILLION && AreUnits(BILLION, quo[lsuq + 1..])
    requires quodigits == Significant(Units(BILLION, quo[lsuq + 1..])) && (quodigits == 0 <==> lsuq == quo.Length - 1)
    modifies quo
    ensures lsuq - 1 <= lsuq' <= lsuq
    ensures Units(BILLION, quo[lsuq' + 1..]) == old(Units(BILLION, quo[lsuq + 1..])) * BILLION + q
    ensures AreUnits(BILLION, quo[lsuq' + 1..]) && quodigits' == Significant(Units(BILLION, quo[lsuq' + 1..]))
    ensures lsuq' == if quodigits' > 0 then lsuq - 1 else lsuq
    ensures quodigits' == 0 <==> lsuq' == quo.Length - 1
    ensures quodigits > 0 ==> quodigits' == quodigits + 9
    ensures quodigits' > 0 ==> quo[lsuq' + 1] == q
  {
    hide Units, Pow, NumDigits;
    ghost var done := Units(BILLION, quo[lsuq + 1..]);
    quo[lsuq] := q;
    ghost var s := quo[lsuq..];
    assert s[1..] == quo[lsuq + 1..];
    UnitsFirst(BILLION, s);
    lsuq', quodigits' := lsuq, quodigits;
    if quodigits != 0 {
      NineMoreDigits(q, done);
      quodigits', lsuq' := quodigits + 9, lsuq - 1;
    } else if q != 0 {
      quodigits' := CountDigits(q);
      lsuq' := lsuq - 1;
    }
  }

  /** One unit further down, the dividend so far and the remainder both gain that unit. */
  lemma NextPosition(whole: seq<nat>, acc: seq<nat>, lsua: nat, msua: nat, q: nat, d: nat)
    requires 0 < lsua <= msua < |acc| == |whole| && acc[lsua - 1] == whole[lsua - 1] < BILLION
    requires Units(BILLION, whole[lsua..]) == q * d + Units(BILLION, acc[lsua..msua + 1])
    requires Units(BILLION, acc[lsua..msua + 1]) < d
    ensures Units(BILLION, whole[lsua - 1..]) == q * BILLION * d + Units(BILLION, acc[lsua - 1..msua + 1])
    ensures Units(BILLION, acc[lsua - 1..msua + 1]) < d * BILLION
    ensures Units(BILLION, acc[lsua..msua + 1]) != 0 ==> Units(BILLION, acc[lsua - 1..msua + 1]) != 0
  {
    hide Units;
    var s, t := whole[lsua - 1..], acc[lsua - 1..msua + 1];
    assert s[1..] == whole[lsua..] && t[1..] == acc[lsua..msua + 1];
    UnitsFirst(BILLION, s);
    UnitsFirst(BILLION, t);
    ShiftQuotient(q, d, Units(BILLION, t[1..]));
  }

  lemma ShiftQuotient(q: nat, d: nat, r: nat)
    ensures (q * d + r) * BILLION == q * BILLION * d + r * BILLION
  {
    MulAssoc(q, BILLION, d);
    MulAssoc(q, d, BILLION);
  }

  /** The dividend high-aligned above 2n zero units, as the accumulator starts. */
  ghost predicate HighAligned(whole: seq<nat>, n: nat, c: nat) {
    && |whole| == 3 * n && AreUnits(BILLION, whole) && (forall i :: 0 <= i < 2 * n ==> whole[i] == 0)
    && Units(BILLION, whole[2 * n..]) == c
  }

  /** What the dividend's upper units amount to. */
  lemma UpperUnits(whole: seq<nat>, n: nat, c: nat, at: nat)
    requires HighAligned(whole, n, c) && at <= 3 * n
    ensures at <= 2 * n ==> Units(BILLION, whole[at..]) == c * Pow(BILLION, 2 * n - at)
    ensures at >= 2 * n ==> Units(BILLION, whole[at..]) <= c
  {
    hide Units, Pow;
    if at <= 2 * n {
      assert whole[at..] == whole[at..2 * n] + whole[2 * n..];
      UnitsConcat(BILLION, whole[at..2 * n], whole[2 * n..]);
      UnitsZeros(BILLION, whole[at..2 * n]);
    } else {
      assert whole[2 * n..] == whole[2 * n..at] + whole[at..];
      UnitsConcat(BILLION, whole[2 * n..at], whole[at..]);
      MulMono(1, Pow(BILLION, at - 2 * n), Units(BILLION, whole[at..]));
      PowMono(BILLION, 0, at - 2 * n);
      assert Pow(BILLION, 0) == 1 by { PowZero(); }
    }
  }

  /** While the quotient is still zero there are at least n units of the accumulator left below. */
  lemma NotStarted(whole: seq<nat>, n: nat, c: nat, at: nat, d: nat)
    requires HighAligned(whole, n, c) && c > 0 && at <= 3 * n && d < Pow(BILLION, n) && Units(BILLION, whole[at..]) < d
    ensures at > n
  {
    hide Units, Pow;
    if at <= n {
      UpperUnits(whole, n, c, at);
      PowMono(BILLION, n, 2 * n - at);
      MulMono(1, c, Pow(BILLION, 2 * n - at));
    }
  }

  /** While only units of the dividend itself have been used, the quotient has at most p digits. */
  lemma ShortQuotient(f: Format, whole: seq<nat>, n: nat, c: nat, at: nat, q: nat, d: nat, r: nat)
    requires HighAligned(whole, n, c) && 2 * n <= at <= 3 * n && c < Pow(10, f.p) && d > 0 && f.p > 0
    requires Units(BILLION, whole[at..]) == q * d + r
    ensures Significant(q) <= f.p
  {
    hide Units, Pow, NumDigits;
    UpperUnits(whole, n, c, at);
    MulMono(1, d, q);
    if q > 0 {
      NumDigitsBounds(q);
      if f.p < NumDigits(q) { PowMono(10, f.p, NumDigits(q) - 1); }
    }
  }

  /** The number of units without leading zeros, of which there is at least one. */
  method UnitCount(div: array<nat>) returns (u: nat)
    requires AreUnits(BILLION, div[..]) && Units(BILLION, div[..]) > 0
    ensures IsDivisor(div, u, Units(BILLION, div[..]))
  {
    hide Units;
    u := div.Length;
    UnitsZeros(BILLION, div[..]);
    assert div[..u] == div[..];
    while div[u - 1] == 0
      invariant 0 < u <= div.Length && Units(BILLION, div[..u]) == Units(BILLION, div[..])
      invariant exists i :: 0 <= i < u && div[i] != 0
      decreases u
    {
      TrimUnits(div[..u], u - 1);
      assert div[..u][..u - 1] == div[..u - 1];
      u := u - 1;
    }
  }

  /** acc and div as decDivide unpacks them; u is the length of div. */
  method LoadOperands(f: Format, cl: nat, cr: nat) returns (acc: array<nat>, div: array<nat>, u: nat)
    requires f.Valid() && cl < Pow(10, f.p) && 0 < cr < Pow(10, f.p)
    ensures fresh(acc) && fresh(div) && acc != div
    ensures HighAligned(acc[..], f.oplen, cl)
    ensures u <= f.oplen && IsDivisor(div, u, cr) && AreUnits(BILLION, div[..])
  {
    hide Units, Pow, BillUnits;
    var n := f.oplen;
    CoefficientFits(f, cl);
    CoefficientFits(f, cr);
    var s := BillUnits(cl, n);
    BillUnitsValue(cl, n);
    acc := new nat[3 * n](i requires 0 <= i < 3 * n => if i < 2 * n then 0 else s[i - 2 * n]);
    assert acc[2 * n..] == s;
    div := LoadUnits(cr, n);
    u := UnitCount(div);
  }

  /** Before a quotient unit: the dividend down to lsua is the quotient so far, moved up by one unit,
      times the divisor, plus the accumulator. */
  ghost predicate Position(whole: seq<nat>, acc: seq<nat>, lsua: nat, msua: nat, q: nat, d: nat) {
    && lsua <= msua < |acc| == |whole| && AreUnits(BILLION, acc) && acc[..lsua] == whole[..lsua]
    && Units(BILLION, whole[lsua..]) == q * BILLION * d + Units(BILLION, acc[lsua..msua + 1])
    && Units(BILLION, acc[lsua..msua + 1]) < d * BILLION
    && (lsua < |whole| / 3 * 2 ==> Units(BILLION, acc[lsua..msua + 1]) != 0)
  }

  /** After it: the accumulator is the remainder. */
  ghost predicate Divided(whole: seq<nat>, acc: seq<nat>, lsua: nat, msua: nat, q: nat, d: nat) {
    && lsua <= msua < |acc| == |whole| && AreUnits(BILLION, acc) && acc[..lsua] == whole[..lsua]
    && Units(BILLION, whole[lsua..]) == q * d + Units(BILLION, acc[lsua..msua + 1])
    && Units(BILLION, acc[lsua..msua + 1]) < d && (acc[msua] == 0 ==> msua == lsua)
  }

  lemma ZeroRemainder(acc: seq<nat>, lsua: nat, msua: nat)
    requires lsua <= msua < |acc| && (acc[msua] == 0 ==> msua == lsua)
    ensures acc[msua] == 0 <==> Units(BILLION, acc[lsua..msua + 1]) == 0
  {
    hide Units;
    var s := acc[lsua..msua + 1];
    assert s[|s| - 1] == acc[msua];
    UnitsZeros(BILLION, s);
  }

  lemma StartPosition(whole: seq<nat>, n: nat, c: nat, u: nat, d: nat)
    requires HighAligned(whole, n, c) && 0 < u <= n && Pow(BILLION, u - 1) <= d
    ensures Position(whole, whole, 3 * n - u, 3 * n - 1, 0, d)
  {
    hide Units, Pow;
    var s := whole[3 * n - u..];
    assert s == whole[3 * n - u..3 * n - 1 + 1];
    assert AreUnits(BILLION, s);
    UnitsBound(BILLION, s);
    PowNextBill(u - 1);
    MulMono(Pow(BILLION, u - 1), d, BILLION);
    assert 0 * BILLION * d == 0;
  }

  lemma NextIsPosition(whole: seq<nat>, acc: seq<nat>, lsua: nat, msua: nat, q: nat, d: nat)
    requires Divided(whole, acc, lsua, msua, q, d) && lsua > 0
    requires lsua <= |whole| / 3 * 2 ==> acc[msua] != 0
    ensures Position(whole, acc, lsua - 1, msua, q, d)
  {
    hide Units;
    assert acc[lsua - 1] == acc[..lsua][lsua - 1] == whole[lsua - 1];
    assert acc[..lsua - 1] == acc[..lsua][..lsua - 1] == whole[..lsua - 1];
    ZeroRemainder(acc, lsua, msua);
    NextPosition(whole, acc, lsua, msua, q, d);
  }

  /** One turn of the outer loop, at one position of the accumulator. */
  method QuotientPosition(acc: array<nat>, lsua: nat, msua0: nat, div: array<nat>, u: nat, ghost d: nat, divtop: nat,
                          quad: bool, use64: bool, ghost whole: seq<nat>, ghost q0: nat)
    returns (unit: nat, msua: nat)
    requires acc != div && IsDivisor(div, u, d) && DivTopFor(div[..u], divtop) && (!quad ==> u <= 2)
    requires Position(whole, acc[..], lsua, msua0, q0, d)
    modifies acc
    ensures unit < BILLION && lsua <= msua < acc.Length && Divided(whole, acc[..], lsua, msua, q0 * BILLION + unit, d)
    ensures lsua < |whole| / 3 * 2 && acc[msua] == 0 ==> unit != 0
  {
    hide Units, IsDivisor, DivTopFor;
    assert acc[lsua..msua0 + 1] == acc[..][lsua..msua0 + 1];
    unit, msua := QuotientUnit(acc, lsua, msua0, div, u, d, divtop, quad, use64);
    assert acc[lsua..msua + 1] == acc[..][lsua..msua + 1];
    assert acc[..][..lsua] == whole[..lsua] by { assert forall i :: 0 <= i < lsua ==> acc[i] == whole[..lsua][i]; }
    AddedUnits2(q0 * BILLION, unit, d);
    ZeroRemainder(acc[..], lsua, msua);
    assert 0 * d == 0;
  }

  lemma AddedUnits2(q: nat, added: nat, d: nat)
    ensures (q + added) * d == q * d + added * d
  {}

  /** Where the quotient has got to: units lsuq+1 and up are its value q, with quodigits digits. */
  ghost predicate QuotientSoFar(f: Format, quo: seq<nat>, lsuq: int, quodigits: nat, q: nat) {
    && |quo| == f.oplen + 1 && -1 <= lsuq <= f.oplen && AreUnits(BILLION, quo[lsuq + 1..])
    && Units(BILLION, quo[lsuq + 1..]) == q && quodigits == Significant(q) && (quodigits == 0 <==> lsuq == f.oplen)
    && (lsuq < f.oplen ==> quodigits > 9 * (f.oplen - 1 - lsuq))
  }

  /** There is room for another unit. */
  ghost predicate MoreWanted(f: Format, lsuq: int, quodigits: nat) {
    lsuq >= f.oplen - 1 || quodigits <= f.p + 1
  }

  lemma RoomForMore(f: Format, quo: seq<nat>, lsuq: int, quodigits: nat, q: nat)
    requires f.Valid() && QuotientSoFar(f, quo, lsuq, quodigits, q) && MoreWanted(f, lsuq, quodigits)
    ensures lsuq >= 0
  {
    hide Units, Significant;
  }

  lemma WholeLength(whole: seq<nat>, n: nat, c: nat)
    requires HighAligned(whole, n, c)
    ensures |whole| == 3 * n
  {}

  lemma QuotientEmpty(f: Format, quo: seq<nat>)
    requires |quo| == f.oplen + 1
    ensures QuotientSoFar(f, quo, f.oplen, 0, 0)
  {
    assert quo[f.oplen + 1..] == [];
  }

  /** StoreUnit in terms of the quotient so far. */
  method StoreQuotient(f: Format, quo: array<nat>, lsuq: nat, unit: nat, quodigits: nat, ghost q: nat)
    returns (below: int, quodigits': nat)
    requires QuotientSoFar(f, quo[..], lsuq, quodigits, q) && unit < BILLION
    modifies quo
    ensures QuotientSoFar(f, quo[..], below, quodigits', q * BILLION + unit)
    ensures below == (if quodigits' == 0 then lsuq else lsuq - 1)
    ensures quodigits == 0 ==> below >= f.oplen - 1
    ensures below < f.oplen ==> quo[below + 1] == unit
  {
    hide Units, Significant;
    assert quo[lsuq + 1..] == quo[..][lsuq + 1..];
    below, quodigits' := StoreUnit(quo, lsuq, unit, quodigits);
    assert quo[below + 1..] == quo[..][below + 1..];
  }

  /** If neither exit is taken there is another unit of the accumulator to bring in. */
  lemma KeepGoing(f: Format, whole: seq<nat>, acc: seq<nat>, lsua: nat, msua: nat, q: nat, cr: nat, cl: nat,
                  quo: seq<nat>, below: int, quodigits: nat)
    requires f.Valid() && HighAligned(whole, f.oplen, cl) && cl > 0 && cr < Pow(BILLION, f.oplen)
    requires Divided(whole, acc, lsua, msua, q, cr) && QuotientSoFar(f, quo, below, quodigits, q)
    requires MoreWanted(f, below, quodigits) && (below < f.oplen ==> below < lsua)
    requires acc[msua] != 0 || lsua > 2 * f.oplen
    ensures lsua > 0 && below <= lsua - 1 && Position(whole, acc, lsua - 1, msua, q, cr)
  {
    hide Units, Pow, Significant, Position;
    RoomForMore(f, quo, below, quodigits, q);
    if below == f.oplen {
      assert q == 0 by { NothingSignificant(q); }
      assert 0 * cr == 0;
      NotStarted(whole, f.oplen, cl, lsua, cr);
    }
    NextIsPosition(whole, acc, lsua, msua, q, cr);
  }

  lemma NothingSignificant(q: nat)
    ensures Significant(q) == 0 <==> q == 0
    ensures q != 0 ==> Significant(q) == NumDigits(q)
  {}

  /** The divisor and its estimator. */
  ghost predicate Ready(f: Format, div: array<nat>, u: nat, cr: nat, divtop: nat)
    reads div
  {
    IsDivisor(div, u, cr) && u <= f.oplen && DivTopFor(div[..u], divtop)
  }

  /** What every turn of the outer loop starts from. */
  ghost predicate Running(f: Format, cl: nat, cr: nat, whole: seq<nat>, acc: seq<nat>, lsua: nat, msua: nat,
                          quo: seq<nat>, lsuq: int, quodigits: nat, q: nat)
  {
    && HighAligned(whole, f.oplen, cl) && Position(whole, acc, lsua, msua, q, cr)
    && QuotientSoFar(f, quo, lsuq, quodigits, q) && MoreWanted(f, lsuq, quodigits) && lsuq <= lsua
  }

  /** What the last turn leaves. */
  ghost predicate Stopped(f: Format, cl: nat, cr: nat, whole: seq<nat>, acc: seq<nat>, lsua: nat, msua: nat,
                          quo: seq<nat>, lsuq: int, quodigits: nat, q: nat)
  {
    && HighAligned(whole, f.oplen, cl) && Divided(whole, acc, lsua, msua, q, cr)
    && QuotientSoFar(f, quo, lsuq, quodigits, q)
    && (quodigits > f.p + 1 || (acc[msua] == 0 && lsua <= 2 * f.oplen))
    && (acc[msua] == 0 && lsua < 2 * f.oplen && lsuq < f.oplen ==> quo[lsuq + 1] != 0)
  }

  /** One turn of the outer loop. Unless it is the last, lsua moves down by one. */
  method Turn(f: Format, acc: array<nat>, lsua: nat, msua0: nat, div: array<nat>, u: nat, divtop: nat, use64: bool,
              quo: array<nat>, lsuq0: int, quodigits0: nat, ghost whole: seq<nat>, ghost cl: nat, ghost cr: nat,
              ghost q0: nat)
    returns (done: bool, msua: nat, lsuq: int, quodigits: nat, ghost q: nat)
    requires acc != div && acc != quo && div != quo && f.Valid() && Ready(f, div, u, cr, divtop)
    requires 0 < cl < Pow(10, f.p) && cr < Pow(BILLION, f.oplen)
    requires Running(f, cl, cr, whole, acc[..], lsua, msua0, quo[..], lsuq0, quodigits0, q0)
    modifies acc, quo
    ensures done ==> Stopped(f, cl, cr, whole, acc[..], lsua, msua, quo[..], lsuq, quodigits, q)
    ensures !done ==> lsua > 0 && Running(f, cl, cr, whole, acc[..], lsua - 1, msua, quo[..], lsuq, quodigits, q)
  {
    hide Units, Pow, IsDivisor, DivTopFor, NumDigits, Significant, Position, QuotientSoFar, HighAligned;
    ghost var n := f.oplen;
    WholeLength(whole, n, cl);
    RoomForMore(f, quo[..], lsuq0, quodigits0, q0);
    QuotientLength(f, quo[..], lsuq0, quodigits0, q0);
    ghost var quos := quo[..];
    var unit;
    unit, msua := QuotientPosition(acc, lsua, msua0, div, u, cr, divtop, f.oplen > 2, use64, whole, q0);
    assert quo[..] == quos;
    ghost var accs := acc[..];
    lsuq, quodigits := StoreQuotient(f, quo, lsuq0, unit, quodigits0, q0);
    assert acc[..] == accs;
    q := q0 * BILLION + unit;
    QuotientLength(f, quo[..], lsuq, quodigits, q);
    if quodigits0 != 0 && quodigits > f.p + 1 {
      done := true;
    } else if acc[msua] == 0 && lsua <= 2 * f.oplen {
      done := true;
    } else {
      done := false;
      KeepGoing(f, whole, acc[..], lsua, msua, q, cr, cl, quo[..], lsuq, quodigits);
    }
  }

  lemma QuotientLength(f: Format, quo: seq<nat>, lsuq: int, quodigits: nat, q: nat)
    requires QuotientSoFar(f, quo, lsuq, quodigits, q)
    ensures |quo| == f.oplen + 1 && -1 <= lsuq <= f.oplen && (quodigits == 0 <==> lsuq == f.oplen)
  {
    hide Units, Significant;
  }

  /** What holds when the outer loop ends, by either exit. */
  lemma Finished(f: Format, whole: seq<nat>, acc: seq<nat>, lsua: nat, msua: nat, q: nat, cr: nat, cl: nat,
                 quo: seq<nat>, lsuq: int, quodigits: nat) returns (r: nat)
    requires f.Valid() && 0 < cl < Pow(10, f.p) && cr > 0
    requires Stopped(f, cl, cr, whole, acc, lsua, msua, quo, lsuq, quodigits, q)
    ensures msua < |acc| && -1 <= lsuq < f.oplen && |quo| == f.oplen + 1
    ensures q > 0 && quodigits == NumDigits(q) > 9 * (f.oplen - 1 - lsuq)
    ensures Units(BILLION, quo[lsuq + 1..]) == q && AreUnits(BILLION, quo[lsuq + 1..])
    ensures lsua <= 2 * f.oplen && cl * Pow(BILLION, 2 * f.oplen - lsua) == q * cr + r && r < cr
    ensures acc[msua] == 0 <==> r == 0
    ensures r != 0 ==> quodigits > f.p + 1
    ensures r == 0 && lsua < 2 * f.oplen ==> quo[lsuq + 1] != 0
  {
    hide Units, Pow, Significant, NumDigits;
    r := Units(BILLION, acc[lsua..msua + 1]);
    WholeLength(whole, f.oplen, cl);
    ZeroRemainder(acc, lsua, msua);
    NothingSignificant(q);
    if lsua >= 2 * f.oplen {
      ShortQuotient(f, whole, f.oplen, cl, lsua, q, cr, r);
    }
    UpperUnits(whole, f.oplen, cl, lsua);
    MulPos(cl, Pow(BILLION, 2 * f.oplen - lsua));
    assert 0 * cr == 0;
  }

  lemma StartRunning(f: Format, cl: nat, cr: nat, whole: seq<nat>, u: nat, div: array<nat>, quo: seq<nat>)
    requires f.Valid() && HighAligned(whole, f.oplen, cl) && IsDivisor(div, u, cr) && u <= f.oplen
    requires |quo| == f.oplen + 1
    ensures 0 < u
    ensures Running(f, cl, cr, whole, whole, 3 * f.oplen - u, 3 * f.oplen - 1, quo, f.oplen, 0, 0)
  {
    hide Units, Pow, HighAligned, IsDivisor, Position, QuotientSoFar;
    DivisorForm(div, u, cr);
    DivisorSize(div, u, cr);
    StartPosition(whole, f.oplen, cl, u, cr);
    QuotientEmpty(f, quo);
  }

  /** The quotient of two coefficients to more than p+1 digits, or exactly. */
  method LongDivide(f: Format, cl: nat, cr: nat, use64: bool)
    returns (quo: array<nat>, lsuq: nat, quodigits: nat, lsua: nat, exact: bool, ghost q: nat, ghost r: nat)
    requires f.Valid() && 0 < cl < Pow(10, f.p) && 0 < cr < Pow(10, f.p)
    ensures fresh(quo) && quo.Length == f.oplen + 1 && lsuq <= f.oplen
    ensures AreUnits(BILLION, quo[lsuq..]) && Units(BILLION, quo[lsuq..]) == q > 0
    ensures quodigits == NumDigits(q) > 9 * (f.oplen - lsuq)
    ensures lsua <= 2 * f.oplen && cl * Pow(BILLION, 2 * f.oplen - lsua) == q * cr + r && r < cr
    ensures exact <==> r == 0
    ensures !exact ==> quodigits > f.p + 1
    ensures exact && lsua < 2 * f.oplen ==> quo[lsuq] != 0
  {
    hide Units, Pow, IsDivisor, DivTopFor, NumDigits, Significant, Position, Divided, QuotientSoFar, HighAligned,
        Running, Stopped;
    var acc, div, u := LoadOperands(f, cl, cr);
    ghost var whole, dv := acc[..], div[..];
    CoefficientFits(f, cr);
    quo := new nat[f.oplen + 1](_ => 0);
    DivisorForm(div, u, cr);
    var divtop := DivTop(div, u - 1);
    assert Ready(f, div, u, cr, divtop);
    StartRunning(f, cl, cr, whole, u, div, quo[..]);
    var msua: nat := 3 * f.oplen - 1;
    lsua := msua - u + 1;
    var below: int, done := f.oplen, false;
    q, quodigits := 0, 0;
    while !done
      invariant div[..] == dv && Ready(f, div, u, cr, divtop) && quo.Length == f.oplen + 1
      invariant !done ==> Running(f, cl, cr, whole, acc[..], lsua, msua, quo[..], below, quodigits, q)
      invariant done ==> Stopped(f, cl, cr, whole, acc[..], lsua, msua, quo[..], below, quodigits, q)
      decreases !done, lsua
    {
      done, msua, below, quodigits, q :=
        Turn(f, acc, lsua, msua, div, u, divtop, use64, quo, below, quodigits, whole, cl, cr, q);
      if !done { lsua := lsua - 1; }
    }
    r := Finished(f, whole, acc[..], lsua, msua, q, cr, cl, quo[..], below, quodigits);
    exact := acc[msua] == 0;
    lsuq := below + 1;
  }
}
