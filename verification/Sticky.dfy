/** Why a result may be rounded from a short stand-in for its exact value.

    Every shortcut of the library (the sticky bit of a quotient, the single digit that replaces a
    far-away addend) moves the exact value inside an open cell that contains neither a
    representable number nor a midpoint between two of them. */
module Sticky {
  import opened Arith
  import opened Rounding

  /** The magnitude a/b lies strictly between lo and lo+w, counted in units of 10^(Etiny-s). */
  ghost predicate InCell(a: nat, b: nat, s: nat, lo: nat, w: nat) {
    b * lo < a * Pow(10, s) < b * (lo + w)
  }

  /** The cell is fine enough: w divides half a quantum of any value as large as lo, or half of 10^Etiny. */
  ghost predicate FineCell(f: Format, s: int, lo: nat, w: nat, h: nat) {
    w > 0 && lo % w == 0 && (5 * Pow(10, h)) % w == 0 && (lo >= Pow(10, f.p + h) || h < s)
  }

  lemma MultipleOfMultiple(x: int, w: int, t: int)
    requires w > 0 && x % w == 0
    ensures (x * t) % w == 0
  {
    var q := x / w;
    assert x == q * w;
    assert x * t == (q * t) * w + 0 by { assert x * t == q * w * t == (q * t) * w; }
    DivModUnique(x * t, w, q * t, 0);
  }

  /** A multiple of w is on one side of the whole cell. */
  lemma Side(lo: int, w: int, x: int)
    requires w > 0 && lo % w == 0 && x % w == 0
    ensures x <= lo || lo + w <= x
  {
    var i, j := lo / w, x / w;
    assert lo == i * w && x == j * w;
    if j <= i { MulMono(j, i, w); } else { MulMono(i + 1, j, w); }
  }

  /** Comparing the value with a boundary gives the answer the cell's position gives. */
  lemma Against(a: nat, b: nat, s: nat, lo: nat, w: nat, x: nat)
    requires b > 0 && w > 0 && InCell(a, b, s, lo, w) && lo % w == 0 && x % w == 0
    ensures a * Pow(10, s) < b * x <==> lo + w <= x
    ensures b * x < a * Pow(10, s) <==> x <= lo
    ensures a * Pow(10, s) != b * x
  {
    Side(lo, w, x);
    if x <= lo { MulMono(x, lo, b); } else { MulMono(lo + w, x, b); }
  }

  /** Powers of ten above the half quantum, and multiples of half a quantum, are boundaries. */
  lemma Boundary(f: Format, s: int, lo: nat, w: nat, h: nat, e: nat, t: nat)
    requires FineCell(f, s, lo, w, h) && e >= h
    ensures (5 * Pow(10, e) * t) % w == 0
    ensures (Pow(10, e + 1) * t) % w == 0
  {
    PowSplit(10, e, h);
    MultipleOfMultiple(5 * Pow(10, h), w, Pow(10, e - h));
    assert 5 * Pow(10, e) == 5 * Pow(10, h) * Pow(10, e - h);
    MultipleOfMultiple(5 * Pow(10, e), w, t);
    MultipleOfMultiple(5 * Pow(10, e), w, 2 * t);
    assert Pow(10, e + 1) * t == 5 * Pow(10, e) * (2 * t);
  }

  /** a < b * 10^j, for a boundary 10^j, read off the cell. */
  lemma AgainstPower(f: Format, a: nat, b: nat, s: nat, lo: nat, w: nat, h: nat, j: nat)
    requires b > 0 && InCell(a, b, s, lo, w) && FineCell(f, s, lo, w, h) && j + s > h
    ensures a < b * Pow(10, j) <==> lo + w <= Pow(10, j + s)
  {
    hide Pow;
    Boundary(f, s, lo, w, h, j + s - 1, 1);
    Against(a, b, s, lo, w, Pow(10, j + s));
    PowAdd(10, j, s);
    ScaledCompare(a, b, Pow(10, j), Pow(10, s));
  }

  /** Comparing with b*t may be done after scaling by u. */
  lemma ScaledCompare(a: nat, b: nat, t: nat, u: nat)
    requires u > 0
    ensures a < b * t <==> a * u < b * (t * u)
    ensures a == b * t <==> a * u == b * (t * u)
  {
    MulAssoc(b, t, u);
    MulCancel(a, b * t, u);
    MulCancel(b * t, a, u);
  }

  /** The quantum of a value in the cell is wider than the cell. */
  lemma QuantumAboveCell(f: Format, a: nat, b: nat, s: nat, lo: nat, w: nat, h: nat)
    requires b > 0 && InCell(a, b, s, lo, w) && FineCell(f, s, lo, w, h)
    ensures Quantum(f.p, a, b) + s > h
  {
    var k := Quantum(f.p, a, b);
    if k + s <= h {
      var t, u := Pow(10, f.p + k), Pow(10, s);
      assert t * u <= lo by {
        PowAdd(10, f.p + k, s);
        PowMono(10, f.p + k + s, f.p + h);
      }
      ScaledCompare(a, b, t, u);
      MulMono(t * u, lo, b);
      assert false;
    }
  }

  /** Two values in one cell have the same quantum. */
  lemma SameQuantum(f: Format, a1: nat, b1: nat, a2: nat, b2: nat, s: nat, lo: nat, w: nat, h: nat)
    requires b1 > 0 && b2 > 0 && FineCell(f, s, lo, w, h) && f.p > 0
    requires InCell(a1, b1, s, lo, w) && InCell(a2, b2, s, lo, w)
    ensures Quantum(f.p, a1, b1) == Quantum(f.p, a2, b2)
  {
    var k := Quantum(f.p, a1, b1);
    QuantumAboveCell(f, a1, b1, s, lo, w, h);
    AgainstPower(f, a1, b1, s, lo, w, h, f.p + k);
    AgainstPower(f, a2, b2, s, lo, w, h, f.p + k);
    if k > 0 {
      AgainstPower(f, a1, b1, s, lo, w, h, f.p + k - 1);
      AgainstPower(f, a2, b2, s, lo, w, h, f.p + k - 1);
    }
    QuantumIs(f.p, a2, b2, k);
  }

  /** Comparing twice the value with t*v, when v scaled by u is twice the boundary step. */
  lemma AgainstDoubled(a: nat, b: nat, u: nat, lo: nat, w: nat, v: nat, half: nat, t: nat)
    requires b > 0 && u > 0 && w > 0 && v * u == 2 * half
    requires b * lo < a * u < b * (lo + w) && lo % w == 0 && (half * t) % w == 0
    ensures 2 * a < b * (v * t) <==> lo + w <= half * t
    ensures 2 * a != b * (v * t)
  {
    var x := half * t;
    Side(lo, w, x);
    if x <= lo { MulMono(x, lo, b); } else { MulMono(lo + w, x, b); }
    assert b * x > a * u <==> lo + w <= x;
    DoubledCompare(a, b, u, v, half, t);
  }

  lemma DoubledCompare(a: nat, b: nat, u: nat, v: nat, half: nat, t: nat)
    requires u > 0 && v * u == 2 * half
    ensures 2 * a < b * (v * t) <==> a * u < b * (half * t)
    ensures 2 * a == b * (v * t) <==> a * u == b * (half * t)
  {
    var x := half * t;
    assert (v * t) * u == 2 * x by { SwapRight(v, u, t); MulAssoc(2, half, t); }
    ScaledCompare(2 * a, b, v * t, u);
    Doubled(a, b, u, x);
  }

  /** Where t/2 quanta lie relative to the value, in the units of the value itself. */
  lemma AgainstHalves(f: Format, a: nat, b: nat, s: nat, lo: nat, w: nat, h: nat, k: nat, t: nat)
    requires b > 0 && InCell(a, b, s, lo, w) && FineCell(f, s, lo, w, h) && k + s > h
    ensures 2 * a < b * (Pow(10, k) * t) <==> lo + w <= 5 * Pow(10, k + s - 1) * t
    ensures 2 * a != b * (Pow(10, k) * t)
  {
    Boundary(f, s, lo, w, h, k + s - 1, t);
    PowAdd(10, k, s);
    AgainstDoubled(a, b, Pow(10, s), lo, w, Pow(10, k), 5 * Pow(10, k + s - 1), t);
  }

  lemma SwapRight(x: nat, y: nat, z: nat)
    ensures x * y * z == (x * z) * y
  {}

  lemma Doubled(a: nat, b: nat, u: nat, x: nat)
    ensures 2 * a * u == 2 * (a * u) && b * (2 * x) == 2 * (b * x)
  {}

  /** Truncation and midpoint, when every half-quantum comparison agrees. */
  lemma SameTruncation(a1: nat, d1: nat, a2: nat, d2: nat)
    requires d1 > 0 && d2 > 0
    requires forall t: nat :: HalvesAgree(a1, d1, a2, d2, t)
    ensures a1 / d1 == a2 / d2
    ensures a1 % d1 != 0 && a2 % d2 != 0
    ensures 2 * (a1 % d1) < d1 <==> 2 * (a2 % d2) < d2
    ensures 2 * (a1 % d1) != d1 && 2 * (a2 % d2) != d2
  {
    var q, r := a1 / d1, a1 % d1;
    assert a1 == q * d1 + r;
    Halves(q, d1);
    Halves(q, d2);
    assert HalvesAgree(a1, d1, a2, d2, 2 * q);
    assert HalvesAgree(a1, d1, a2, d2, 2 * q + 1);
    assert HalvesAgree(a1, d1, a2, d2, 2 * q + 2);
    DivModUnique(a2, d2, q, a2 - q * d2);
  }

  lemma Halves(q: nat, d: nat)
    ensures d * (2 * q) == 2 * (q * d)
    ensures d * (2 * q + 1) == 2 * (q * d) + d
    ensures d * (2 * q + 2) == 2 * (q * d) + 2 * d
  {}

  ghost predicate HalvesAgree(a1: nat, d1: nat, a2: nat, d2: nat, t: nat) {
    (2 * a1 < d1 * t <==> 2 * a2 < d2 * t) && 2 * a1 != d1 * t && 2 * a2 != d2 * t
  }

  lemma CellHalvesAgree(f: Format, a1: nat, b1: nat, a2: nat, b2: nat, s: nat, lo: nat, w: nat, h: nat, k: nat, t: nat)
    requires b1 > 0 && b2 > 0 && FineCell(f, s, lo, w, h) && k + s > h
    requires InCell(a1, b1, s, lo, w) && InCell(a2, b2, s, lo, w)
    ensures HalvesAgree(a1, MulPow(b1, k), a2, MulPow(b2, k), t)
  {
    AgainstHalves(f, a1, b1, s, lo, w, h, k, t);
    AgainstHalves(f, a2, b2, s, lo, w, h, k, t);
    MulAssoc(b1, Pow(10, k), t);
    MulAssoc(b2, Pow(10, k), t);
  }

  /** The two values sit alike against the smallest normal number. */
  lemma SameTininess(f: Format, a1: nat, b1: nat, a2: nat, b2: nat, s: nat, lo: nat, w: nat, h: nat)
    requires b1 > 0 && b2 > 0 && FineCell(f, s, lo, w, h) && f.p > 0
    requires InCell(a1, b1, s, lo, w) && InCell(a2, b2, s, lo, w)
    ensures a1 < MulPow(b1, f.p - 1) <==> a2 < MulPow(b2, f.p - 1)
  {
    SameQuantum(f, a1, b1, a2, b2, s, lo, w, h);
    QuantumAboveCell(f, a1, b1, s, lo, w, h);
    var k := Quantum(f.p, a1, b1);
    if k == 0 {
      AgainstPower(f, a1, b1, s, lo, w, h, f.p - 1);
      AgainstPower(f, a2, b2, s, lo, w, h, f.p - 1);
    } else {
      PowMono(10, f.p - 1, f.p + k - 1);
      MulMono(Pow(10, f.p - 1), Pow(10, f.p + k - 1), b1);
      MulMono(Pow(10, f.p - 1), Pow(10, f.p + k - 1), b2);
    }
  }

  /** Values in one fine cell round to the same outcome, and both inexactly. */
  lemma SameCell(f: Format, mode: Mode, neg: bool, a1: nat, b1: nat, i1: int, a2: nat, b2: nat, i2: int,
                 s: nat, lo: nat, w: nat, h: nat)
    requires b1 > 0 && b2 > 0 && FineCell(f, s, lo, w, h) && f.p > 0
    requires InCell(a1, b1, s, lo, w) && InCell(a2, b2, s, lo, w)
    ensures RoundExact(f, mode, neg, a1, b1, i1) == RoundExact(f, mode, neg, a2, b2, i2)
    ensures Inexact in RoundExact(f, mode, neg, a1, b1, i1).raised
  {
    SameQuantum(f, a1, b1, a2, b2, s, lo, w, h);
    QuantumAboveCell(f, a1, b1, s, lo, w, h);
    SameTininess(f, a1, b1, a2, b2, s, lo, w, h);
    var k := Quantum(f.p, a1, b1);
    forall t: nat ensures HalvesAgree(a1, MulPow(b1, k), a2, MulPow(b2, k), t) {
      CellHalvesAgree(f, a1, b1, a2, b2, s, lo, w, h, k, t);
    }
    var d1, d2 := MulPow(b1, k), MulPow(b2, k);
    SameTruncation(a1, d1, a2, d2);
    hide *;
    SameRounding(mode, neg, a1, d1, a2, d2);
    InexactCase(f, mode, neg, a1, b1, i1);
    InexactCase(f, mode, neg, a2, b2, i2);
    FitKeepsInexact(f, mode, neg, Rounded(mode, neg, a1, d1), k, Flags(f, a1, b1));
  }

  lemma SameRounding(mode: Mode, neg: bool, a1: nat, d1: nat, a2: nat, d2: nat)
    requires d1 > 0 && d2 > 0 && a1 / d1 == a2 / d2 && a1 % d1 != 0 && a2 % d2 != 0
    requires 2 * (a1 % d1) < d1 <==> 2 * (a2 % d2) < d2
    requires 2 * (a1 % d1) != d1 && 2 * (a2 % d2) != d2
    ensures Rounded(mode, neg, a1, d1) == Rounded(mode, neg, a2, d2)
  {}

  function Flags(f: Format, a: nat, b: nat): set<Condition>
    requires b > 0 && f.p > 0
  {
    {Inexact} + if a < MulPow(b, f.p - 1) then {Underflow} else {}
  }

  lemma InexactCase(f: Format, mode: Mode, neg: bool, a: nat, b: nat, ideal: int)
    requires b > 0 && f.p > 0 && a % MulPow(b, Quantum(f.p, a, b)) != 0
    ensures RoundExact(f, mode, neg, a, b, ideal) ==
      var k := Quantum(f.p, a, b);
      FitRounded(f, mode, neg, Rounded(mode, neg, a, MulPow(b, k)), k, Flags(f, a, b))
    ensures Inexact in Flags(f, a, b)
  {}

  lemma FitKeepsInexact(f: Format, mode: Mode, neg: bool, c: nat, k: nat, raised: set<Condition>)
    requires f.p > 0 && Inexact in raised
    ensures Inexact in FitRounded(f, mode, neg, c, k, raised).raised
  {}
}
