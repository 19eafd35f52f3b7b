/** What a correctly rounded decimal result is, independently of any digit string.

    An exact magnitude is a fraction a/b counted in units of 10^Etiny, the least quantum of the
    format, so that every representable magnitude is a natural number c * 10^k with c < 10^p.
    RoundExact is the function every arithmetic operation is proved against; the lemmas of
    RoundingTheorems say that it picks the representable number IEEE 754-2008 section 4.3 asks for. */
module Rounding {
  import opened Arith

  /** The eight modes of decContext.h. */
  datatype Mode = Ceiling | Up | HalfUp | HalfEven | HalfDown | Down | Floor | ZeroFiveUp

  datatype Condition =
    | Inexact | Underflow | Overflow
    | InvalidOperation | DivisionByZero | DivisionUndefined | DivisionImpossible | ConversionSyntax

  /** A decimal interchange format; oplen is its length in base-billion units. */
  datatype Format = Format(p: nat, emin: int, emax: int, oplen: nat) {
    ghost predicate Valid() {
      p >= 2 && emin <= 0 && p <= emax && oplen >= 1 && 9 * (oplen - 1) < p < 9 * oplen
    }

    const etiny: int := emin - (p - 1)
    const etop: int := emax - (p - 1)
    /** The largest k for which 10^k units is a quantum of the format. */
    const kmax: int := etop - etiny
  }

  const DOUBLE: Format := Format(16, -383, 384, 2)
  const QUAD: Format := Format(34, -6143, 6144, 4)

  datatype Number = Finite(neg: bool, coeff: nat, exp: int) | Infinite(neg: bool) | NaN(signalling: bool)

  datatype Outcome = Outcome(num: Number, raised: set<Condition>)

  /** A finite number that the format can hold. */
  ghost predicate Holds(f: Format, x: Number) {
    x.Finite? && f.etiny <= x.exp <= f.etop && x.coeff < Pow(10, f.p)
  }

  /** Does the discarded part r/d (0 < r < d) move the truncated coefficient q away from zero? */
  predicate Away(mode: Mode, neg: bool, q: nat, r: nat, d: nat) {
    match mode
    case Ceiling => !neg
    case Up => true
    case HalfUp => 2 * r >= d
    case HalfEven => 2 * r > d || (2 * r == d && q % 2 == 1)
    case HalfDown => 2 * r > d
    case Down => false
    case Floor => neg
    case ZeroFiveUp => q % 5 == 0
  }

  /** The fraction n/d rounded to an integer. */
  function Rounded(mode: Mode, neg: bool, n: nat, d: nat): nat
    requires d > 0
  {
    var q, r := n / d, n % d;
    if r != 0 && Away(mode, neg, q, r, d) then q + 1 else q
  }

  lemma {:induction false} PowExceeds(n: nat)
    ensures Pow(10, n) > n
  {
    if n > 0 { PowExceeds(n - 1); }
  }

  /** The least k such that a/b has at most p digits above 10^k. */
  function QuantumFrom(p: nat, a: nat, b: nat, k: nat): (r: nat)
    requires b > 0
    ensures k <= r && a < b * Pow(10, p + r)
    ensures r > k ==> b * Pow(10, p + r - 1) <= a
    decreases a - k
  {
    if a < b * Pow(10, p + k) then k
    else
      PowExceeds(p + k);
      MulMono(1, b, Pow(10, p + k));
      QuantumFrom(p, a, b, k + 1)
  }

  function Quantum(p: nat, a: nat, b: nat): (r: nat)
    requires b > 0
    ensures a < b * Pow(10, p + r)
    ensures r > 0 ==> b * Pow(10, p + r - 1) <= a
  {
    QuantumFrom(p, a, b, 0)
  }

  /** The largest k up to the ideal for which a/b is still a multiple of 10^k. */
  function Climb(a: nat, b: nat, k: nat, ideal: int): (r: nat)
    requires b > 0 && a % MulPow(b, k) == 0
    ensures k <= r && (r == k || r <= ideal) && a % MulPow(b, r) == 0
    ensures r < ideal ==> a % MulPow(b, r + 1) != 0
    decreases ideal - k
  {
    if k < ideal && a % MulPow(b, k + 1) == 0 then Climb(a, b, k + 1, ideal) else k
  }

  function MulPow(b: nat, k: nat): (r: nat)
    requires b > 0
    ensures r > 0 && r == b * Pow(10, k)
  {
    MulPos(b, Pow(10, k));
    b * Pow(10, k)
  }

  /** Infinity or the largest finite number, as sections 7.4 and 4.3 of IEEE 754-2008 say. */
  function Overflowed(f: Format, mode: Mode, neg: bool): Number {
    if mode == Down || mode == ZeroFiveUp || (mode == Ceiling && neg) || (mode == Floor && !neg)
    then Finite(neg, Pow(10, f.p) - 1, f.etop)
    else Infinite(neg)
  }

  /** Places the coefficient c at quantum 10^k, folding down or overflowing at the top. */
  function Fit(f: Format, mode: Mode, neg: bool, c: nat, k: nat, raised: set<Condition>): Outcome {
    if c == 0 then Outcome(Finite(neg, 0, f.etiny + Min(k, f.kmax)), raised)
    else if k <= f.kmax then Outcome(Finite(neg, c, f.etiny + k), raised)
    else if f.kmax >= 0 && c * Pow(10, k - f.kmax) < Pow(10, f.p)
    then Outcome(Finite(neg, c * Pow(10, k - f.kmax), f.etop), raised)
    else Outcome(Overflowed(f, mode, neg), raised + {Overflow, Inexact})
  }

  /** As Fit, for a rounded coefficient that may have carried into one more digit. */
  function FitRounded(f: Format, mode: Mode, neg: bool, c: nat, k: nat, raised: set<Condition>): Outcome
    requires f.p > 0
  {
    if c == Pow(10, f.p) then Fit(f, mode, neg, Pow(10, f.p - 1), k + 1, raised)
    else Fit(f, mode, neg, c, k, raised)
  }

  /** The exact magnitude a/b, rounded once into the format. An exact result takes the exponent
      nearest the ideal one, an inexact result the least exponent that keeps p digits. */
  function RoundExact(f: Format, mode: Mode, neg: bool, a: nat, b: nat, ideal: int): Outcome
    requires b > 0 && f.p > 0
  {
    var k := Quantum(f.p, a, b);
    var d := MulPow(b, k);
    if a % d == 0 then
      var kk := Climb(a, b, k, ideal);
      Fit(f, mode, neg, a / MulPow(b, kk), kk, {})
    else
      var raised := {Inexact} + if a < MulPow(b, f.p - 1) then {Underflow} else {};
      var c := Rounded(mode, neg, a, d);
      FitRounded(f, mode, neg, c, k, raised)
  }

  /** The exact integer c * 10^e, as a fraction of 10^Etiny. */
  function UnitsNum(f: Format, c: nat, e: int): nat {
    if e >= f.etiny then c * Pow(10, e - f.etiny) else c
  }

  function UnitsDen(f: Format, e: int): (d: nat)
    ensures d > 0
  {
    if e >= f.etiny then 1 else Pow(10, f.etiny - e)
  }

  /** The exact number c * 10^e rounded into the format, with ideal exponent e. */
  function RoundScaled(f: Format, mode: Mode, neg: bool, c: nat, e: int): Outcome
    requires f.p > 0
  {
    RoundExact(f, mode, neg, UnitsNum(f, c, e), UnitsDen(f, e), e - f.etiny)
  }

  /* ---- Facts about the functions above ---- */

  lemma QuantumIs(p: nat, a: nat, b: nat, k: nat)
    requires b > 0 && a < b * Pow(10, p + k)
    requires k > 0 ==> b * Pow(10, p + k - 1) <= a
    ensures Quantum(p, a, b) == k
  {
    var r := Quantum(p, a, b);
    if r < k {
      PowMono(10, p + r, p + k - 1);
      MulMono(Pow(10, p + r), Pow(10, p + k - 1), b);
    }
    if k < r {
      PowMono(10, p + k, p + r - 1);
      MulMono(Pow(10, p + k), Pow(10, p + r - 1), b);
    }
  }

  /** Rounding sees only the fraction, not its numerator and denominator. */
  lemma RoundedScale(mode: Mode, neg: bool, n: nat, d: nat, t: nat)
    requires d > 0 && t > 0
    ensures d * t > 0 && n * t >= 0
    ensures Rounded(mode, neg, n * t, d * t) == Rounded(mode, neg, n, d)
  {
    ScaleDivMod(n, d, t);
    MulMono(0, n, t);
    var r := n % d;
    MulCancel(2 * r, d, t);
    MulCancel(d, 2 * r, t);
    MulCancel(r, 0, t);
    assert 2 * (r * t) == (2 * r) * t;
  }

  lemma MulPowScale(b: nat, k: nat, t: nat)
    requires b > 0 && t > 0
    ensures b * t > 0 && MulPow(b * t, k) == MulPow(b, k) * t
  {
    MulPos(b, t);
    assert b * t * Pow(10, k) == b * Pow(10, k) * t;
  }

  lemma {:induction false} ClimbScale(a: nat, b: nat, k: nat, ideal: int, t: nat)
    requires b > 0 && t > 0 && a % MulPow(b, k) == 0
    ensures b * t > 0 && a * t >= 0 && a * t % MulPow(b * t, k) == 0
    ensures Climb(a * t, b * t, k, ideal) == Climb(a, b, k, ideal)
    decreases ideal - k
  {
    MulMono(0, a, t);
    MulPowScale(b, k, t);
    MulPowScale(b, k + 1, t);
    ScaleDivMod(a, MulPow(b, k), t);
    ScaleDivMod(a, MulPow(b, k + 1), t);
    var r := a % MulPow(b, k + 1);
    MulCancel(r, 0, t);
    if k < ideal && r == 0 { ClimbScale(a, b, k + 1, ideal, t); }
  }

  lemma RoundExactScale(f: Format, mode: Mode, neg: bool, a: nat, b: nat, ideal: int, t: nat)
    requires b > 0 && f.p > 0 && t > 0
    ensures b * t > 0 && a * t >= 0
    ensures RoundExact(f, mode, neg, a * t, b * t, ideal) == RoundExact(f, mode, neg, a, b, ideal)
  {
    var k := Quantum(f.p, a, b);
    MulPos(b, t);
    MulMono(0, a, t);
    MulPowScale(b, f.p + k, t);
    MulStrict(a, MulPow(b, f.p + k), t);
    if k > 0 {
      MulPowScale(b, f.p + k - 1, t);
      MulMono(MulPow(b, f.p + k - 1), a, t);
    }
    QuantumIs(f.p, a * t, b * t, k);
    MulPowScale(b, k, t);
    var d := MulPow(b, k);
    ScaleDivMod(a, d, t);
    MulCancel(a % d, 0, t);
    RoundedScale(mode, neg, a, d, t);
    MulPowScale(b, f.p - 1, t);
    MulCancel(a, MulPow(b, f.p - 1), t);
    MulCancel(MulPow(b, f.p - 1), a, t);
    if a % d == 0 {
      ClimbScale(a, b, k, ideal, t);
      var kk := Climb(a, b, k, ideal);
      MulPowScale(b, kk, t);
      ScaleDivMod(a, MulPow(b, kk), t);
    }
  }
}
