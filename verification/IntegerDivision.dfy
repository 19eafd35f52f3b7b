/** decDivide for all four operations: the integer quotient, and the two remainders it leads to. */
module IntegerDivision {
  import opened Arith
  import opened Digits
  import opened Rounding
  import opened Sticky
  import opened Context
  import opened Finalizer
  import opened ExactSum
  import opened FusedAdd
  import opened DivisionOps

  /* ---- Specification: operands aligned at the lower exponent ---- */

  function LowExp(el: int, er: int): int { Min(el, er) }

  /** The dividend and the divisor counted in units of the lower of their two quanta. */
  function Dividend(cl: nat, el: int, er: int): nat { Aligned(cl, el, Min(el, er)) }

  function Divisor(cr: nat, el: int, er: int): (y: nat)
    ensures cr > 0 ==> y > 0
  {
    if cr > 0 then MulPos(cr, Pow(10, er - Min(el, er))); Aligned(cr, er, Min(el, er)) else 0
  }

  /** The quotient truncated to an integer. */
  function Truncated(cl: nat, el: int, cr: nat, er: int): nat
    requires cr > 0
  {
    Dividend(cl, el, er) / Divisor(cr, el, er)
  }

  /** The quotient rounded to the nearest integer, ties to even. */
  function Nearest(cl: nat, el: int, cr: nat, er: int): nat
    requires cr > 0
  {
    Rounded(HalfEven, false, Dividend(cl, el, er), Divisor(cr, el, er))
  }

  /* ---- From the sticky quotient to the integer ---- */

  /** Equal fractions have the same integer quotients. */
  lemma SameQuotients(a: nat, b: nat, c: nat, d: nat)
    requires b > 0 && d > 0 && a * d == c * b
    ensures a / b == c / d && Rounded(HalfEven, false, a, b) == Rounded(HalfEven, false, c, d)
  {
    ScaleDivMod(a, b, d);
    ScaleDivMod(c, d, b);
    RoundedScale(HalfEven, false, a, b, d);
    RoundedScale(HalfEven, false, c, d, b);
    assert b * d == d * b;
  }

  /** X/Y is (cl*10^n / cr) / 10^drop. */
  lemma AlignedQuotient(cl: nat, el: int, cr: nat, er: int, n: nat, drop: nat)
    requires cr > 0 && drop == n - (el - er)
    ensures Dividend(cl, el, er) * (cr * Pow(10, drop)) == cl * Pow(10, n) * Divisor(cr, el, er)
  {
    hide Pow;
    SmallPowers();
    if el >= er {
      PowAdd(10, el - er, drop);
      Shuffle(cl, Pow(10, el - er), cr, Pow(10, drop));
    } else {
      PowAdd(10, n, er - el);
      Shuffle(cl, Pow(10, n), cr, Pow(10, er - el));
    }
  }

  lemma Shuffle(c: nat, p: nat, d: nat, q: nat)
    ensures (c * p) * (d * q) == c * (p * q) * d
    ensures c * (d * (p * q)) == (c * p) * (d * q)
  {
    MulAssoc(c, p, q);
    assert (c * p) * (d * q) == (c * p) * q * d by { MulAssoc(c * p, q, d); assert d * q == q * d; }
    MulAssoc(c, d, p * q);
    assert c * d * (p * q) == c * (p * q) * d;
  }

  lemma AlignedUp(cl: nat, el: int, cr: nat, er: int, n: nat, up: nat)
    requires cr > 0 && up == el - er - n
    ensures Dividend(cl, el, er) * cr == cl * Pow(10, n) * Pow(10, up) * Divisor(cr, el, er)
  {
    hide Pow;
    SmallPowers();
    PowAdd(10, n, up);
    MulAssoc(cl, Pow(10, n), Pow(10, up));
  }

  /** The sticky bit does not reach the integer part. */
  lemma StickyTruncates(x: nat, cr: nat, q: nat, c: nat, drop: nat)
    requires cr > 0 && drop > 0 && q == x / cr && (c == q || c == Or1(q))
    ensures cr * Pow(10, drop) > 0 && c / Pow(10, drop) == x / (cr * Pow(10, drop))
  {
    hide *;
    TenModTwo(drop);
    TruncatesThrough(x, cr, q, c, Pow(10, drop));
  }

  lemma TenModTwo(n: nat)
    requires n > 0
    ensures Pow(10, n) % 2 == 0
  {
    TenIsEven(n);
  }

  lemma TruncatesThrough(x: nat, cr: nat, q: nat, c: nat, t: nat)
    requires cr > 0 && t > 0 && t % 2 == 0 && q == x / cr && (c == q || c == Or1(q))
    ensures cr * t > 0 && c / t == x / (cr * t)
  {
    hide *;
    MulPos(cr, t);
    SameEvenQuotient(q, c, t);
    NestedDivision(x, cr, t);
  }

  lemma SameEvenQuotient(q: nat, c: nat, t: nat)
    requires t > 0 && t % 2 == 0 && (c == q || c == Or1(q))
    ensures c / t == q / t && c % t == if c == Or1(q) then Or1(q % t) else q % t
  {
    DivBounds(q, t);
    var k, r := q / t, q % t;
    EvenPart(k, t, q, r);
    EvenRoom(r, t);
    DivModUnique(c, t, k, r + (c - q));
  }

  lemma EvenPart(k: int, t: nat, q: nat, r: nat)
    requires t % 2 == 0 && q == k * t + r
    ensures q % 2 == r % 2
  {
    var h := t / 2;
    assert k * t == 2 * (k * h);
  }

  lemma EvenRoom(r: nat, t: nat)
    requires t % 2 == 0 && r < t
    ensures r % 2 == 0 ==> r + 1 < t
  {}

  /** The sticky bit keeps every comparison with a half. */
  lemma StickyNearest(x: nat, cr: nat, q: nat, c: nat, drop: nat)
    requires cr > 0 && drop >= 2 && q == x / cr && x % cr != 0 && c == Or1(q)
    ensures cr * Pow(10, drop) > 0
    ensures Rounded(HalfEven, false, c, Pow(10, drop)) == Rounded(HalfEven, false, x, cr * Pow(10, drop))
  {
    TenIsEven(drop);
    TenIsEven(drop - 1);
    hide Pow, Rounded;
    var t := Pow(10, drop);
    var h := 5 * (5 * Pow(10, drop - 2));
    MulPos(cr, t);
    NestedDivision(x, cr, t);
    SameEvenQuotient(q, c, t);
    AgainstHalf(q % t, c % t, t, h, cr, x % cr);
    hide *;
    SameRounding(HalfEven, false, c, t, x, cr * t);
  }

  lemma AgainstHalf(r: nat, s: nat, t: nat, h: nat, d: nat, rest: nat)
    requires t == 4 * h && r < t && s == Or1(r) && 0 < rest < d
    ensures s != 0 && 2 * s != t
    ensures 2 * s > t <==> 2 * (r * d + rest) > d * t
    ensures r * d + rest != 0 && 2 * (r * d + rest) != d * t
  {
    MulMono(0, r, d);
    assert d * t == 2 * (d * (2 * h));
    if r < 2 * h {
      MulMono(r + 1, 2 * h, d);
      assert (r + 1) * d == r * d + d;
    } else {
      MulMono(2 * h, r, d);
    }
  }

  lemma StandsDigits(f: Format, cl: nat, cr: nat, n: nat, c: nat)
    requires StandsFor(f, cl, cr, n, c)
    ensures (cl * Pow(10, n)) % cr != 0 ==> NumDigits(c) > f.p + 1
  {
    hide Pow, NumDigits;
    NumDigitsBounds(c);
    if NumDigits(c) <= f.p + 1 { PowMono(10, NumDigits(c), f.p + 1); }
  }

  /** Shifting a number by a power of ten shifts its length. */
  lemma DigitsOfQuotient(c: nat, drop: nat, p: nat)
    requires c > 0
    ensures NumDigits(c) - drop > p <==> c / Pow(10, drop) >= Pow(10, p)
  {
    hide Pow, NumDigits;
    NumDigitsBounds(c);
    PowAdd(10, p, drop);
    if NumDigits(c) - drop > p {
      PowMono(10, p + drop, NumDigits(c) - 1);
      DivGe(c, Pow(10, drop), Pow(10, p));
    } else {
      PowMono(10, NumDigits(c), p + drop);
      DivLt(c, Pow(10, drop), Pow(10, p));
    }
  }

  lemma DigitsShifted(c: nat, n: nat)
    requires c > 0
    ensures c * Pow(10, n) > 0 && NumDigits(c * Pow(10, n)) == NumDigits(c) + n
  {
    hide Pow, NumDigits;
    MulPos(c, Pow(10, n));
    NumDigitsBounds(c);
    PowAdd(10, NumDigits(c), n);
    PowAdd(10, NumDigits(c) - 1, n);
    MulStrict(c, Pow(10, NumDigits(c)), Pow(10, n));
    MulMono(Pow(10, NumDigits(c) - 1), c, Pow(10, n));
    NumDigitsIs(c * Pow(10, n), NumDigits(c) + n);
  }

  lemma DigitsReach(c: nat, p: nat)
    requires c > 0
    ensures NumDigits(c) > p <==> c >= Pow(10, p)
  {
    hide Pow, NumDigits;
    NumDigitsBounds(c);
    if NumDigits(c) > p { PowMono(10, p, NumDigits(c) - 1); } else { PowMono(10, NumDigits(c), p); }
  }

  /** With no fraction the digits are padded with zeros. */
  lemma IntegerUp(f: Format, cl: nat, el: int, cr: nat, er: int, n: nat, c: nat, up: nat)
    requires f.Valid() && StandsFor(f, cl, cr, n, c) && c > 0 && up == el - er - n
    ensures NumDigits(c) + up > f.p <==> Truncated(cl, el, cr, er) >= Pow(10, f.p)
    ensures NumDigits(c) + up <= f.p ==> Truncated(cl, el, cr, er) == Nearest(cl, el, cr, er) == c * Pow(10, up)
  {
    hide Pow, NumDigits, Dividend, Divisor;
    var x := cl * Pow(10, n);
    var a, y, t := Dividend(cl, el, er), Divisor(cr, el, er), Pow(10, up);
    AlignedUp(cl, el, cr, er, n, up);
    StandsDigits(f, cl, cr, n, c);
    DivBounds(x, cr);
    if x % cr == 0 {
      DigitsShifted(c, up);
      DigitsReach(c * t, f.p);
      assert a * cr == c * t * y * cr by { Regroup4(c, cr, t, y); }
      MulCancel(a, c * t * y, cr);
      DivModUnique(a, y, c * t, 0);
    } else {
      var q := x / cr;
      PowMono(10, f.p, f.p + 1);
      assert q * cr * t * y == q * t * y * cr by { Regroup4(q, cr, t, y); }
      MulMono(q * cr, x, t);
      MulMono(q * cr * t, x * t, y);
      MulCancel(q * t * y, a, cr);
      MulMono(1, t, q);
      MulMono(q, q * t, y);
      DivGe(a, y, q);
    }
  }

  lemma Regroup4(c: nat, d: nat, t: nat, y: nat)
    ensures c * d * t * y == c * t * y * d
  {
    assert c * d * t == c * t * d by { MulAssoc(c, d, t); MulAssoc(c, t, d); assert d * t == t * d; }
    assert c * t * d * y == c * t * y * d by { MulAssoc(c * t, d, y); MulAssoc(c * t, y, d); assert d * y == y * d; }
  }

  /** What the digits c at exponent -drop or +up say about the integer quotient. */
  lemma IntegerFromDigits(f: Format, cl: nat, el: int, cr: nat, er: int, n: nat, c: nat)
    requires f.Valid() && StandsFor(f, cl, cr, n, c) && c > 0
    ensures var e := el - er - n;
      && (NumDigits(c) + e > f.p <==> Truncated(cl, el, cr, er) >= Pow(10, f.p))
      && (e < 0 ==> Truncated(cl, el, cr, er) == c / Pow(10, -e))
      && (e < 0 && NumDigits(c) + e <= f.p ==> Nearest(cl, el, cr, er) == Rounded(HalfEven, false, c, Pow(10, -e)))
      && (e >= 0 && NumDigits(c) + e <= f.p ==>
            Truncated(cl, el, cr, er) == Nearest(cl, el, cr, er) == c * Pow(10, e))
  {
    var e := el - er - n;
    var x := cl * Pow(10, n);
    var q := x / cr;
    hide Pow, NumDigits, Dividend, Divisor, Rounded;
    StandsDigits(f, cl, cr, n, c);
    if e < 0 {
      var drop := -e;
      AlignedQuotient(cl, el, cr, er, n, drop);
      StickyTruncates(x, cr, q, c, drop);
      SameQuotients(Dividend(cl, el, er), Divisor(cr, el, er), x, cr * Pow(10, drop));
      DigitsOfQuotient(c, drop, f.p);
      if x % cr != 0 {
        if NumDigits(c) + e <= f.p { StickyNearest(x, cr, q, c, drop); }
      } else {
        DivBounds(x, cr);
        MulAssoc(c, cr, Pow(10, drop));
        SameQuotients(x, cr * Pow(10, drop), c, Pow(10, drop));
      }
    } else {
      IntegerUp(f, cl, el, cr, er, n, c, e);
    }
  }

  /* ---- Forming the integer, digit by digit ---- */

  /** Pads an integer with the zeros of its exponent. */
  method PadInteger(num: BcdNum)
    requires num.Valid() && num.exponent >= 0 && num.lsd + num.exponent < num.buf.Length
    modifies num.buf, num`lsd
    ensures num.Valid() && num.Coefficient() == old(num.Coefficient()) * Pow(10, num.exponent)
  {
    hide Val, Pow;
    ghost var s := num.buf[num.msd..num.lsd + 1];
    var ub := num.lsd + 1;
    while ub <= num.lsd + num.exponent
      invariant num.lsd == old(num.lsd) && num.lsd + 1 <= ub <= num.lsd + num.exponent + 1
      invariant num.buf[num.msd..num.lsd + 1] == s
      invariant forall i :: num.lsd < i < ub ==> num.buf[i] == 0
    {
      num.buf[ub] := 0;
      ub := ub + 1;
    }
    ghost var t := num.buf[num.msd..num.lsd + num.exponent + 1];
    assert t[..|s|] == s && forall i :: |s| <= i < |t| ==> t[i] == 0;
    num.lsd := num.lsd + num.exponent;
    PaddedValue(s, t);
  }

  lemma PaddedValue(s: seq<nat>, t: seq<nat>)
    requires AreDigits(s) && |s| <= |t| && t[..|s|] == s && forall i :: |s| <= i < |t| ==> t[i] == 0
    ensures AreDigits(t) && Val(t) == Val(s) * Pow(10, |t| - |s|)
  {
    hide Val, Pow;
    assert t == s + Zeros(|t| - |s|);
    ValPadded(|t| - |s|, s);
  }

  lemma SingleZero(s: seq<nat>, i: nat)
    requires i < |s| && s[i] == 0
    ensures AreDigits(s[i..i + 1]) && Val(s[i..i + 1]) == 0
  {
    assert s[i..i + 1] == [0];
    ValOne(0);
  }

  /** Drops digits from the right, leaving a zero if all go. */
  method TruncateInteger(num: BcdNum, drop: nat)
    requires num.Valid() && drop > 0
    modifies num.buf, num`lsd
    ensures num.Valid() && num.Coefficient() == old(num.Coefficient()) / Pow(10, drop)
  {
    hide Val, Pow;
    ghost var s := num.buf[num.msd..num.lsd + 1];
    var lsd: int := num.lsd - drop;
    if lsd < num.msd {
      DiscardAll(s, drop);
      num.lsd := num.msd;
      num.buf[num.lsd] := 0;
      SingleZero(num.buf[..], num.msd);
    } else {
      CutValue(s, |s| - drop);
      SubSlice(num.buf[..], num.msd, num.lsd + 1, 0, |s| - drop);
      num.lsd := lsd;
      assert num.buf[num.msd..num.lsd + 1] == s[..|s| - drop];
    }
  }

  /** A cut at or left of the first digit: only the re-round digit is left of the coefficient. */
  method CutLeft(buf: array<nat>, msd: nat, lsd: nat, drop: nat) returns (reround: nat)
    requires 0 < msd <= lsd < buf.Length && AreDigits(buf[msd..lsd + 1]) && buf[msd - 1] == 0 && drop > lsd - msd
    ensures Val(buf[msd..lsd + 1]) / Pow(10, drop) == 0
    ensures Digest(reround, Val(buf[msd..lsd + 1]) % Pow(10, drop), Pow(10, drop))
  {
    hide Val, Pow, Digest;
    ghost var s := buf[msd..lsd + 1];
    var roundat := if drop == lsd - msd + 1 then msd else msd - 1;
    assert buf[msd] == s[0];
    reround := ApplySticky(buf, roundat + 1, lsd, buf[roundat]);
    DiscardAll(s, drop);
    if roundat == msd {
      assert buf[roundat + 1..lsd + 1] == s[1..];
    }
  }

  /** A cut inside the coefficient. */
  method CutInside(buf: array<nat>, msd: nat, lsd: nat, drop: nat) returns (reround: nat)
    requires msd <= lsd < buf.Length && AreDigits(buf[msd..lsd + 1]) && 0 < drop <= lsd - msd
    ensures AreDigits(buf[msd..lsd - drop + 1])
    ensures Val(buf[msd..lsd - drop + 1]) == Val(buf[msd..lsd + 1]) / Pow(10, drop)
    ensures Digest(reround, Val(buf[msd..lsd + 1]) % Pow(10, drop), Pow(10, drop))
  {
    hide Val, Pow, Digest;
    ghost var s := buf[msd..lsd + 1];
    var roundat := lsd - drop + 1;
    assert buf[roundat] == s[|s| - drop];
    reround := ApplySticky(buf, roundat + 1, lsd, buf[roundat]);
    DiscardInside(s, drop);
    assert buf[roundat + 1..lsd + 1] == s[|s| - drop + 1..];
    assert buf[msd..lsd - drop + 1] == s[..|s| - drop];
  }

  /** The digit just right of the cut, made sticky, and the digits left of it; a cut at or left of the
      first digit leaves the zero placed there. */
  method CutForNearest(num: BcdNum, drop: nat) returns (reround: nat)
    requires num.Valid() && drop > 0 && num.msd > 0
    modifies num.buf, num`lsd, num`msd
    ensures num.Valid() && num.Coefficient() == old(num.Coefficient()) / Pow(10, drop)
    ensures Digest(reround, old(num.Coefficient()) % Pow(10, drop), Pow(10, drop))
    ensures (num.msd > 0 && num.buf[num.msd - 1] == 0) || num.Coefficient() == 0
  {
    hide Val, Pow, Digest;
    ghost var s := num.buf[num.msd..num.lsd + 1];
    num.buf[num.msd - 1] := 0;
    assert num.buf[num.msd..num.lsd + 1] == s;
    if drop < num.lsd - num.msd + 1 {
      reround := CutInside(num.buf, num.msd, num.lsd, drop);
      num.lsd := num.lsd - drop;
    } else {
      reround := CutLeft(num.buf, num.msd, num.lsd, drop);
      num.msd := num.msd - 1;
      num.lsd := num.msd;
      SingleZero(num.buf[..], num.msd);
    }
  }

  /** Rounds to the nearest integer in place, ties to even. */
  method NearestInteger(num: BcdNum, drop: nat)
    requires num.Valid() && drop > 0 && num.msd > 0
    modifies num.buf, num`lsd, num`msd
    ensures num.Valid() && num.Coefficient() == Rounded(HalfEven, false, old(num.Coefficient()), Pow(10, drop))
  {
    hide Val, Pow, Digest, Rounded;
    ghost var c := num.Coefficient();
    var reround := CutForNearest(num, drop);
    BumpRounds(HalfEven, false, reround, c, Pow(10, drop));
    LastDigitOf(num.buf[num.msd..num.lsd + 1]);
    if reround != 0 {
      var bump := 0;
      if reround > 5 { bump := 1; }
      else if reround == 5 { bump := num.buf[num.lsd] % 2; }
      if bump != 0 {
        AddOne(num);
      }
    }
  }

  /** Adds one, carrying into the zero left of the first digit if need be. */
  method AddOne(num: BcdNum)
    requires num.Valid() && ((num.msd > 0 && num.buf[num.msd - 1] == 0) || num.Coefficient() == 0)
    modifies num.buf, num`msd
    ensures num.Valid() && num.Coefficient() == old(num.Coefficient()) + 1
  {
    hide Val, Pow;
    PowExceeds(num.lsd - num.msd + 1);
    var carried := Increment(num.buf, num.msd, num.lsd);
    if carried {
      ghost var z := num.buf[num.msd..num.lsd + 1];
      num.buf[num.msd - 1] := num.buf[num.msd - 1] + 1;
      num.msd := num.msd - 1;
      assert num.buf[num.msd..num.lsd + 1] == [1] + z;
      ValPrepend(1, z);
      ValZeros(z);
    }
  }

  /** The integer quotient, or the news that it needs more than p digits. */
  method FormInteger(f: Format, num: BcdNum, nearest: bool, ghost cl: nat, ghost el: int, ghost cr: nat, ghost er: int)
    returns (impossible: bool)
    requires f.Valid() && num.Valid() && num.Coefficient() > 0 && num.exponent <= el - er
    requires StandsFor(f, cl, cr, el - er - num.exponent, num.Coefficient())
    requires Trimmed(num.buf[num.msd..num.lsd + 1])
    requires 1 <= num.msd <= 9 && num.buf.Length == (f.oplen + 1) * 9 + 2
    modifies num, num.buf
    ensures num.buf == old(num.buf) && num.neg == old(num.neg)
    ensures impossible <==> Truncated(cl, el, cr, er) >= Pow(10, f.p)
    ensures !impossible ==>
      (num.Valid() && num.exponent == 0
       && num.Coefficient() == if nearest then Nearest(cl, el, cr, er) else Truncated(cl, el, cr, er))
  {
    hide Val, Pow, NumDigits, Truncated, Nearest, Rounded, StandsFor;
    ghost var c := num.Coefficient();
    IntegerFromDigits(f, cl, el, cr, er, el - er - num.exponent, c);
    TrimmedDigits(num.buf[num.msd..num.lsd + 1]);
    var length := num.lsd - num.msd + 1;
    impossible := length + num.exponent > f.p;
    if impossible { return; }
    if num.exponent >= 0 {
      PadInteger(num);
    } else {
      var drop := -num.exponent;
      if nearest { NearestInteger(num, drop); } else { TruncateInteger(num, drop); }
    }
    num.exponent := 0;
  }

  /* ---- The remainder: one fused multiply-add that cannot take its shortcut ---- */

  /** dividend - n * divisor, counted in units of the lower exponent. */
  function RemainderOf(cl: nat, el: int, cr: nat, er: int, n: nat): int
  {
    Dividend(cl, el, er) - n * Divisor(cr, el, er)
  }

  function Abs(z: int): nat { if z < 0 then -z else z }

  /** An integer of at most p digits is stored exactly. */
  lemma IntegerStored(f: Format, mode: Mode, neg: bool, n: nat)
    requires f.Valid() && n < Pow(10, f.p)
    ensures RoundScaled(f, mode, neg, n, 0) == Outcome(Finite(neg, n, 0), {})
  {
    hide Pow, RoundScaled;
    HeldExactly(f, mode, neg, n, 0);
  }

  lemma HeldExactly(f: Format, mode: Mode, neg: bool, c: nat, e: int)
    requires f.Valid() && c < Pow(10, f.p) && f.etiny <= e <= f.etop
    ensures RoundScaled(f, mode, neg, c, e) == Outcome(Finite(neg, c, e), {})
  {
    hide RoundScaled, Pow;
    KeepDigits(f, mode, neg, c, e);
  }

  /** An integer quotient, truncated or nearest, leaves a remainder below the divisor (at most half of
      it when nearest) and not above the dividend. */
  lemma RemainderBound(x: nat, y: nat, n: nat)
    requires y > 0 && (n == x / y || n == Rounded(HalfEven, false, x, y))
    ensures 0 - y < x - n * y < y && 0 - x <= x - n * y <= x
    ensures n == x / y ==> x - n * y == x % y
    ensures n == Rounded(HalfEven, false, x, y) ==> 0 - y <= 2 * (x - n * y) <= y
    ensures n > 0 ==> x <= 2 * (n * y)
  {
    var q, r := x / y, x % y;
    DivBounds(x, y);
    OneMore(q, y);
    MulMono(0, q, y);
    if q > 0 { MulMono(1, q, y); }
  }

  lemma HalfDigits(a: nat, b: nat)
    requires 0 < a <= 2 * b
    ensures NumDigits(a) <= NumDigits(b) + 1
  {
    hide NumDigits;
    NumDigitsBounds(a);
    NumDigitsBounds(b);
    if NumDigits(a) > NumDigits(b) + 1 {
      PowMono(10, NumDigits(b) + 1, NumDigits(a) - 1);
      assert Pow(10, NumDigits(b) + 1) == 10 * Pow(10, NumDigits(b));
    }
  }

  /** x/y is below t but would round up to it. */
  predicate NearlyReaches(x: nat, y: nat, t: nat) {
    x < t * y && 2 * x >= (2 * t - 1) * y
  }

  lemma RoundsUpTo(x: nat, y: nat, t: nat)
    requires y > 0 && t > 0 && x / y < t <= Rounded(HalfEven, false, x, y)
    ensures NearlyReaches(x, y, t)
  {
    var q, r := x / y, x % y;
    DivBounds(x, y);
    OneMore(q, y);
    assert q == t - 1 && 2 * r >= y;
    assert (2 * t - 1) * y == 2 * (q * y) + y;
  }

  /** What is missing is a positive multiple of k, and at most half of y. */
  lemma MissingMultiple(c: nat, k: nat, y: nat, t: nat, m: nat)
    requires k > 0 && NearlyReaches(c * k, y, t) && t * y == m * k
    ensures 2 * k <= y
  {
    MulCancel(c, m, k);
    MulMono(c + 1, m, k);
    assert (c + 1) * k == c * k + k;
    assert (2 * t - 1) * y == 2 * (t * y) - y;
  }

  /** A dividend shifted by all the digits or more misses a multiple of t. */
  lemma FarDividend(c: nat, y: nat, t: nat)
    requires 0 < y < t
    ensures c * t >= 0 && !NearlyReaches(c * t, y, t)
  {
    MulMono(0, c, t);
    if NearlyReaches(c * t, y, t) {
      assert t * y == y * t;
      MissingMultiple(c, t, y, t, y);
    }
  }

  /** Shifted by fewer, it misses a multiple of k, and is itself too short for a long divisor. */
  lemma NearDividend(c: nat, k: nat, y: nat, t: nat, u: nat)
    requires y > 0 && k > 0 && t == u * k && u >= 10 && c < t
    ensures c * k >= 0 && !NearlyReaches(c * k, y, t)
  {
    MulMono(0, c, k);
    MulMono(10, u, k);
    if NearlyReaches(c * k, y, t) {
      assert t * y == u * y * k by { MulAssoc(u, k, y); MulAssoc(u, y, k); assert k * y == y * k; }
      MissingMultiple(c, k, y, t, u * y);
      ShortDivisor(c, k, y, t);
    }
  }

  lemma ShortDivisor(c: nat, k: nat, y: nat, t: nat)
    requires k > 0 && 10 * k <= t && c < t && c * k >= 0 && 2 * (c * k) >= (2 * t - 1) * y
    ensures y <= k
  {
    MulMono(c, t - 1, k);
    ShortArith(t, k, y);
    MulCancel(y, k + 1, 2 * t - 1);
  }

  lemma ShortArith(t: nat, k: nat, y: nat)
    ensures (t - 1) * k == t * k - k && (k + 1) * (2 * t - 1) == 2 * (t * k) + 2 * t - k - 1
    ensures (2 * t - 1) * y == y * (2 * t - 1)
  {}

  lemma LongDivisor(x: nat, y: nat, t: nat)
    requires x < t && y >= 10
    ensures !NearlyReaches(x, y, t)
  {
    MulMono(10, y, 2 * t - 1);
  }

  /** A quotient of less than 10^p is never rounded up to it: what is missing is a multiple of the dividend's
      power of ten, and cannot be as little as half the divisor. */
  lemma NearestFits(f: Format, cl: nat, el: int, cr: nat, er: int)
    requires f.Valid() && cl < Pow(10, f.p) && 0 < cr < Pow(10, f.p) && Truncated(cl, el, cr, er) < Pow(10, f.p)
    ensures Nearest(cl, el, cr, er) < Pow(10, f.p)
  {
    hide Pow, NearlyReaches, Rounded;
    var x, y, t := Dividend(cl, el, er), Divisor(cr, el, er), Pow(10, f.p);
    assert !NearlyReaches(x, y, t) by {
      if el < er {
        AlignedSelf(cl, el);
        AtLeastTen(cr, er - el);
        LongDivisor(x, y, t);
      } else {
        AlignedSelf(cr, er);
        if el - er >= f.p {
          PowSplit(10, el - er, f.p);
          MulAssoc(cl, Pow(10, el - er - f.p), t);
          FarDividend(cl * Pow(10, el - er - f.p), y, t);
        } else {
          PowSplit(10, f.p, el - er);
          AtLeastTen(1, f.p - (el - er));
          NearDividend(cl, Pow(10, el - er), y, t, Pow(10, f.p - (el - er)));
        }
      }
    }
    if Nearest(cl, el, cr, er) >= t { RoundsUpTo(x, y, t); }
  }

  lemma AtLeastTen(c: nat, n: nat)
    requires c > 0 && n > 0
    ensures c * Pow(10, n) >= 10
  {
    PowMono(10, 1, n);
    SmallPowers();
    hide Pow;
    MulMono(1, c, Pow(10, n));
  }

  /** The operands of the multiply-add: their alignment. */
  lemma RemainderAligned(cl: nat, el: int, cr: nat, er: int, n: nat)
    requires cr > 0
    ensures n * cr >= 0 && Aligned(n * cr, er, LowExp(el, er)) == n * Divisor(cr, el, er)
    ensures Aligned(cl, el, LowExp(el, er)) == Dividend(cl, el, er)
  {
    hide Pow, Aligned;
    MulMono(0, n, cr);
    AlignedProduct(n, cr, er, LowExp(el, er));
  }

  lemma AlignedProduct(n: nat, c: nat, e: int, m: int)
    requires m <= e
    ensures Aligned(n * c, e, m) == n * Aligned(c, e, m)
  {
    hide Pow;
    MulAssoc(n, c, Pow(10, e - m));
  }

  /** The operands of the multiply-add are too near each other for the far-operand shortcut to overlap. */
  lemma NoShortcut(f: Format, cl: nat, el: int, cr: nat, er: int, n: nat)
    requires f.Valid() && 0 < cl < Pow(10, f.p) && 0 < cr < Pow(10, f.p)
    requires n == Truncated(cl, el, cr, er) || n == Nearest(cl, el, cr, er)
    ensures n * cr >= 0 && !FmaOverlaps(f, n * cr, er, cl, el)
  {
    hide Pow, Rounded, NumDigits, Dividend, Divisor;
    var m := LowExp(el, er);
    RemainderAligned(cl, el, cr, er, n);
    RemainderBound(Dividend(cl, el, er), Divisor(cr, el, er), n);
    DigitsShifted(cl, el - m);
    if n > 0 {
      MulPos(n, cr);
      DigitsShifted(n * cr, er - m);
      HalfDigits(Aligned(n * cr, er, m), Aligned(cl, el, m));
      HalfDigits(Aligned(cl, el, m), Aligned(n * cr, er, m));
    } else {
      assert 0 * cr == 0;
      ZeroQuotient(f, cl, el, cr, er);
    }
  }

  /** When the integer quotient is zero a dividend of higher exponent has at most p digits aligned. */
  lemma ZeroQuotient(f: Format, cl: nat, el: int, cr: nat, er: int)
    requires f.Valid() && 0 < cl < Pow(10, f.p) && 0 < cr < Pow(10, f.p)
    requires Truncated(cl, el, cr, er) == 0 || Nearest(cl, el, cr, er) == 0
    ensures !FmaOverlaps(f, 0, er, cl, el)
  {
    hide Pow, NumDigits;
    var x, y := Dividend(cl, el, er), Divisor(cr, el, er);
    RemainderBound(x, y, 0);
    assert 0 * y == 0;
    if el > er {
      SmallPowers();
      assert x < y == cr;
      DigitsShifted(cl, el - er);
      DigitsReach(x, f.p);
      SmallDigits(0);
    }
  }

  /** The sum is the remainder z, exactly, at the lower of the two exponents. */
  lemma RemainderIsExact(f: Format, mode: Mode, lneg: bool, cl: nat, el: int, cr: nat, er: int, n: nat, z: int)
    requires f.Valid() && 0 < cl < Pow(10, f.p) && 0 < cr < Pow(10, f.p)
    requires f.etiny <= el <= f.etop && f.etiny <= er <= f.etop
    requires n == Truncated(cl, el, cr, er) || n == Nearest(cl, el, cr, er)
    requires z == RemainderOf(cl, el, cr, er, n)
    ensures n * cr >= 0
    ensures SumOutcome(f, mode, !lneg, n * cr, er, lneg, cl, el)
         == Outcome(Finite(if z == 0 then mode == Floor else (z < 0) != lneg, Abs(z), LowExp(el, er)), {})
  {
    hide Pow, Rounded, RoundScaled, Dividend, Divisor, Aligned;
    RemainderAligned(cl, el, cr, er, n);
    RemainderBound(Dividend(cl, el, er), Divisor(cr, el, er), n);
    RemainderFits(f, cl, el, cr, er, z);
    HeldExactly(f, mode, if z == 0 then mode == Floor else (z < 0) != lneg, Abs(z), LowExp(el, er));
  }

  lemma RemainderFits(f: Format, cl: nat, el: int, cr: nat, er: int, z: int)
    requires cl < Pow(10, f.p) && cr < Pow(10, f.p)
    requires var x, y := Dividend(cl, el, er), Divisor(cr, el, er); 0 - x <= z <= x && 0 - y <= z <= y
    ensures 0 - Pow(10, f.p) < z < Pow(10, f.p)
  {
    hide Pow;
    SmallPowers();
  }

  /* ---- decDivide ---- */

  datatype DivideOp = Divide | DivideInt | Remainder | RemNear

  /** One or both operands special. */
  method DivideSpecial(f: Format, l: Number, r: Number, ctx: DecContext, op: DivideOp) returns (df: Number)
    requires !l.Finite? || !r.Finite?
    modifies ctx`status
    ensures l.NaN? || r.NaN? ==> df == NaN(false) && ctx.status == old(ctx.status) + NaNRaises(l, r)
    ensures l.Infinite? && !r.NaN? && (r.Infinite? || op.Remainder? || op.RemNear?) ==>
      df == NaN(false) && ctx.status == old(ctx.status) + {InvalidOperation}
    ensures l.Infinite? && r.Finite? && (op.Divide? || op.DivideInt?) ==>
      df == Infinite(l.neg != r.neg) && ctx.status == old(ctx.status)
    ensures l.Finite? && r.Infinite? ==> ctx.status == old(ctx.status)
    ensures l.Finite? && r.Infinite? ==>
      df == if op.Divide? then Finite(l.neg != r.neg, 0, f.etiny)
            else if op.DivideInt? then Finite(l.neg != r.neg, 0, 0) else l
  {
    if l.NaN? || r.NaN? {
      df := PropagateNaN(l, r, ctx);
    } else if l.Infinite? {
      if r.Infinite? || op == Remainder || op == RemNear {
        ctx.Raise({InvalidOperation});
        df := NaN(false);
      } else {
        df := Infinite(l.neg != r.neg);
      }
    } else if op == Remainder || op == RemNear {
      df := l;
    } else if op == DivideInt {
      df := Finite(l.neg != r.neg, 0, 0);
    } else {
      df := Finite(l.neg != r.neg, 0, f.etiny);
    }
  }

  /** A finite number divided by zero. */
  method DivideByZero(l: Number, r: Number, ctx: DecContext, op: DivideOp) returns (df: Number)
    requires l.Finite? && r.Finite? && r.coeff == 0
    modifies ctx`status
    ensures l.coeff == 0 ==> df == NaN(false) && ctx.status == old(ctx.status) + {DivisionUndefined}
    ensures l.coeff != 0 && (op.Remainder? || op.RemNear?) ==>
      df == NaN(false) && ctx.status == old(ctx.status) + {InvalidOperation}
    ensures l.coeff != 0 && (op.Divide? || op.DivideInt?) ==>
      df == Infinite(l.neg != r.neg) && ctx.status == old(ctx.status) + {DivisionByZero}
  {
    if l.coeff == 0 {
      ctx.Raise({DivisionUndefined});
      return NaN(false);
    }
    if op == Remainder || op == RemNear {
      ctx.Raise({InvalidOperation});
      return NaN(false);
    }
    ctx.Raise({DivisionByZero});
    return Infinite(l.neg != r.neg);
  }

  /** The remainder that goes with the integer n. */
  ghost function RemainderNumber(lneg: bool, cl: nat, el: int, cr: nat, er: int, n: nat): Number {
    var z := RemainderOf(cl, el, cr, er, n);
    Finite(if z == 0 then lneg else (z < 0) != lneg, Abs(z), LowExp(el, er))
  }

  /** Zero divided by a finite number: the quotient is zero, and the remainder is a zero of dfl's sign. */
  method DivideZero(f: Format, l: Number, r: Number, ctx: DecContext, op: DivideOp) returns (df: Number)
    requires f.Valid() && Holds(f, l) && Holds(f, r) && l.coeff == 0 && r.coeff != 0
    modifies ctx`status
    ensures op.Divide? ==>
      var o := QuotientOutcome(f, ctx.round, l.neg != r.neg, 0, l.exp, r.coeff, r.exp);
      df == o.num && ctx.status == old(ctx.status) + o.raised
    ensures op.DivideInt? ==> df == Finite(l.neg != r.neg, 0, 0) && ctx.status == old(ctx.status)
    ensures op.Remainder? || op.RemNear? ==>
      df == Finite(l.neg, 0, LowExp(l.exp, r.exp)) && ctx.status == old(ctx.status)
  {
    hide Pow, QuotientOutcome, RoundScaled;
    if op == DivideInt {
      return Finite(l.neg != r.neg, 0, 0);
    }
    var exponent, neg := l.exp - r.exp, l.neg != r.neg;
    if op != Divide {
      exponent, neg := LowExp(l.exp, r.exp), l.neg;
      HeldExactly(f, ctx.round, neg, 0, exponent);
    } else {
      ZeroQuotientRounds(f, ctx.round, neg, l.exp, r.coeff, r.exp);
    }
    var bcdacc := new nat[1](_ => 0);
    assert bcdacc[0..1] == [0];
    ValOne(0);
    var num := new BcdNum(bcdacc, 0, 0, neg, exponent);
    df := Finalize(f, num, ctx);
  }

  lemma ZeroQuotientRounds(f: Format, mode: Mode, neg: bool, el: int, cr: nat, er: int)
    requires f.Valid() && cr > 0
    ensures QuotientOutcome(f, mode, neg, 0, el, cr, er) == RoundScaled(f, mode, neg, 0, el - er)
  {
    hide Pow, UnitsDen;
    var e := el - er;
    MulPos(UnitsDen(f, e), cr);
    assert UnitsNum(f, 0, e) == 0;
    hide RoundExact;
    SameFraction(f, mode, neg, 0, UnitsDen(f, e) * cr, 0, UnitsDen(f, e), e - f.etiny);
  }

  /** dfl less the integer quotient times dfr, by a fused multiply-add; a zero takes dfl's sign. */
  method SubtractQuotient(f: Format, l: Number, r: Number, quotient: Number, ctx: DecContext, use64: bool, ghost n: nat)
    returns (df: Number)
    requires f.Valid() && f.oplen <= 4 && Holds(f, l) && Holds(f, r) && l.coeff != 0 && r.coeff != 0
    requires n == Truncated(l.coeff, l.exp, r.coeff, r.exp) || n == Nearest(l.coeff, l.exp, r.coeff, r.exp)
    requires n < Pow(10, f.p) && quotient == Finite(l.neg == r.neg, n, 0)
    modifies ctx`status
    ensures df == RemainderNumber(l.neg, l.coeff, l.exp, r.coeff, r.exp, n) && ctx.status == old(ctx.status)
  {
    hide Truncated, Nearest, SumOutcome, FmaOutcome, FmaOverlaps, FmaLosesCarryIn, RemainderOf;
    RemainderIsExact(f, ctx.round, l.neg, l.coeff, l.exp, r.coeff, r.exp, n,
        RemainderOf(l.coeff, l.exp, r.coeff, r.exp, n));
    NoShortcut(f, l.coeff, l.exp, r.coeff, r.exp, n);
    NoOverlapNoLoss(f, ctx.round, !l.neg, n * r.coeff, r.exp, l.neg, l.coeff, l.exp);
    df := FloatFma(f, quotient, r, l, ctx, use64);
    if df.Finite? && df.coeff == 0 {
      df := df.(neg := l.neg);
    }
  }

  /** Both operands finite and not zero. */
  method DivideFinite(f: Format, l: Number, r: Number, ctx: DecContext, op: DivideOp, use64: bool) returns (df: Number)
    requires f.Valid() && f.oplen <= 4 && Holds(f, l) && Holds(f, r) && l.coeff != 0 && r.coeff != 0
    modifies ctx`status
    ensures op.Divide? ==>
      var o := QuotientOutcome(f, ctx.round, l.neg != r.neg, l.coeff, l.exp, r.coeff, r.exp);
      df == o.num && ctx.status == old(ctx.status) + o.raised
    ensures var n := Truncated(l.coeff, l.exp, r.coeff, r.exp);
      if !op.Divide? && n >= Pow(10, f.p)
      then df == NaN(false) && ctx.status == old(ctx.status) + {DivisionImpossible}
      else !op.Divide? ==> ctx.status == old(ctx.status)
    ensures var n := Truncated(l.coeff, l.exp, r.coeff, r.exp);
      n < Pow(10, f.p) ==>
      && (op.DivideInt? ==> df == Finite(l.neg != r.neg, n, 0))
      && (op.Remainder? ==> df == RemainderNumber(l.neg, l.coeff, l.exp, r.coeff, r.exp, n))
      && (op.RemNear? ==>
            df == RemainderNumber(l.neg, l.coeff, l.exp, r.coeff, r.exp, Nearest(l.coeff, l.exp, r.coeff, r.exp)))
  {
    hide Val, Pow, NumDigits, Truncated, Nearest, RoundScaled, QuotientOutcome, StandsFor, RemainderNumber, Trimmed;
    var num := QuotientNumber(f, l.coeff, r.coeff, l.neg != r.neg, l.exp - r.exp, use64);
    if op == Divide {
      StickyQuotientRounds(f, ctx.round, l.neg != r.neg, l.coeff, l.exp, r.coeff, r.exp,
                           l.exp - r.exp - num.exponent, num.Coefficient());
      df := Finalize(f, num, ctx);
      return;
    }
    var impossible := FormInteger(f, num, op == RemNear, l.coeff, l.exp, r.coeff, r.exp);
    if impossible {
      ctx.Raise({DivisionImpossible});
      return NaN(false);
    }
    ghost var n := num.Coefficient();
    NearestFits(f, l.coeff, l.exp, r.coeff, r.exp);
    IntegerStored(f, ctx.round, l.neg != r.neg, n);
    df := Finalize(f, num, ctx);
    if op == DivideInt { return; }
    var quotient := df.(neg := !df.neg);
    df := SubtractQuotient(f, l, r, quotient, ctx, use64, n);
  }

  /** The result of an integer division or a remainder that is possible. */
  ghost function IntegerResult(f: Format, l: Number, r: Number, op: DivideOp): Number
    requires l.Finite? && r.Finite? && r.coeff != 0
  {
    var n := Truncated(l.coeff, l.exp, r.coeff, r.exp);
    match op
    case DivideInt => Finite(l.neg != r.neg, n, 0)
    case RemNear => RemainderNumber(l.neg, l.coeff, l.exp, r.coeff, r.exp, Nearest(l.coeff, l.exp, r.coeff, r.exp))
    case _ => RemainderNumber(l.neg, l.coeff, l.exp, r.coeff, r.exp, n)
  }

  /* ---- What these results are ---- */

  /** The signed value of a finite number, counted in units of 10^e. */
  ghost function SignedAt(x: Number, e: int): int
    requires x.Finite? && e <= x.exp
  {
    (if x.neg then -1 else 1) * (x.coeff * Pow(10, x.exp - e))
  }

  /** df is dfl less n times dfr, exactly, at the lower exponent, with the sign of the quotient put on n; a
      zero has dfl's sign. */
  ghost predicate Leaves(l: Number, r: Number, n: nat, df: Number)
    requires l.Finite? && r.Finite?
  {
    var e, sign := Min(l.exp, r.exp), if l.neg == r.neg then 1 else -1;
    && df.Finite? && df.exp == e && SignedAt(df, e) == SignedAt(l, e) - sign * n * SignedAt(r, e)
    && (df.coeff == 0 ==> df.neg == l.neg)
  }

  /** An integer quotient: the sign of the quotient, and what it leaves of dfl is less than dfr. */
  ghost predicate IsQuotient(l: Number, r: Number, df: Number)
    requires l.Finite? && r.Finite?
  {
    var e := Min(l.exp, r.exp);
    var x, y := l.coeff * Pow(10, l.exp - e), r.coeff * Pow(10, r.exp - e);
    df.Finite? && df.exp == 0 && df.neg == (l.neg != r.neg) && df.coeff * y <= x < (df.coeff + 1) * y
  }

  lemma SignedIs(x: Number, e: int, m: int)
    requires x.Finite? && e <= x.exp && m == x.coeff * Pow(10, x.exp - e)
    ensures SignedAt(x, e) == if x.neg then -m else m
  {}

  lemma RemainderLeaves(l: Number, r: Number, n: nat)
    requires l.Finite? && r.Finite? && r.coeff != 0
    ensures Leaves(l, r, n, RemainderNumber(l.neg, l.coeff, l.exp, r.coeff, r.exp, n))
  {
    var e := Min(l.exp, r.exp);
    var x, y := Dividend(l.coeff, l.exp, r.exp), Divisor(r.coeff, l.exp, r.exp);
    var df := RemainderNumber(l.neg, l.coeff, l.exp, r.coeff, r.exp, n);
    SmallPowers();
    SignedIs(l, e, x);
    SignedIs(r, e, y);
    SignedIs(df, e, df.coeff);
    hide SignedAt, Pow, Dividend, Divisor;
    Negations(n, y);
  }

  lemma Negations(n: int, y: int)
    ensures 1 * n * y == n * y && -1 * n * -y == n * y && 1 * n * -y == -(n * y) && -1 * n * y == -(n * y)
  {}

  lemma RemainderSize(l: Number, r: Number)
    requires l.Finite? && r.Finite? && r.coeff != 0
    ensures var y := r.coeff * Pow(10, r.exp - Min(l.exp, r.exp)); var n := Truncated(l.coeff, l.exp, r.coeff, r.exp);
      var df := RemainderNumber(l.neg, l.coeff, l.exp, r.coeff, r.exp, n); df.coeff < y && df.neg == l.neg
    ensures var y := r.coeff * Pow(10, r.exp - Min(l.exp, r.exp)); var n := Nearest(l.coeff, l.exp, r.coeff, r.exp);
      var df := RemainderNumber(l.neg, l.coeff, l.exp, r.coeff, r.exp, n);
      2 * df.coeff <= y && (2 * df.coeff == y ==> n % 2 == 0)
  {
    hide Pow;
    var x, y := Dividend(l.coeff, l.exp, r.exp), Divisor(r.coeff, l.exp, r.exp);
    RemainderBound(x, y, x / y);
    NearestBound(x, y);
  }

  /** A remainder to nearest, and a tie from an even integer. */
  lemma NearestBound(x: nat, y: nat)
    requires y > 0
    ensures var n := Rounded(HalfEven, false, x, y); var z := x - n * y;
      0 - y <= 2 * z <= y && (2 * z == y || 2 * z == 0 - y ==> n % 2 == 0)
  {
    var q, r := x / y, x % y;
    DivBounds(x, y);
    OneMore(q, y);
  }

  lemma QuotientIs(l: Number, r: Number)
    requires l.Finite? && r.Finite? && r.coeff != 0
    ensures IsQuotient(l, r, Finite(l.neg != r.neg, Truncated(l.coeff, l.exp, r.coeff, r.exp), 0))
  {
    hide Pow;
    var x, y := Dividend(l.coeff, l.exp, r.exp), Divisor(r.coeff, l.exp, r.exp);
    DivBounds(x, y);
    OneMore(x / y, y);
  }

  /** Too many digits are needed exactly when 10^p times dfr is not above dfl. */
  lemma ImpossibleIff(f: Format, l: Number, r: Number)
    requires l.Finite? && r.Finite? && r.coeff != 0
    ensures var e := Min(l.exp, r.exp);
      Truncated(l.coeff, l.exp, r.coeff, r.exp) >= Pow(10, f.p)
      <==> Pow(10, f.p) * (r.coeff * Pow(10, r.exp - e)) <= l.coeff * Pow(10, l.exp - e)
  {
    hide Pow;
    var x, y := Dividend(l.coeff, l.exp, r.exp), Divisor(r.coeff, l.exp, r.exp);
    if Pow(10, f.p) * y <= x { DivGe(x, y, Pow(10, f.p)); } else { DivLt(x, y, Pow(10, f.p)); }
  }

  /** decFloatDivide, decFloatDivideInteger, decFloatRemainder and decFloatRemainderNear. */
  method FloatDivide(f: Format, l: Number, r: Number, ctx: DecContext, op: DivideOp, use64: bool) returns (df: Number)
    requires f.Valid() && f.oplen <= 4 && IsNumber(f, l) && IsNumber(f, r)
    modifies ctx`status
    ensures l.Finite? && r.Finite? && r.coeff != 0 && op.Divide? ==>
      var o := QuotientOutcome(f, ctx.round, l.neg != r.neg, l.coeff, l.exp, r.coeff, r.exp);
      df == o.num && ctx.status == old(ctx.status) + o.raised
    ensures l.Finite? && r.Finite? && r.coeff != 0 && !op.Divide? ==>
      var n := Truncated(l.coeff, l.exp, r.coeff, r.exp);
      if n >= Pow(10, f.p) then df == NaN(false) && ctx.status == old(ctx.status) + {DivisionImpossible}
      else df == IntegerResult(f, l, r, op) && ctx.status == old(ctx.status)
    ensures l.Finite? && r.Finite? && r.coeff != 0 && !op.Divide? ==>
      var e := Min(l.exp, r.exp);
      var x, y := l.coeff * Pow(10, l.exp - e), r.coeff * Pow(10, r.exp - e);
      if Pow(10, f.p) * y <= x then df == NaN(false) && ctx.status == old(ctx.status) + {DivisionImpossible}
      else
        && ctx.status == old(ctx.status) && (op.DivideInt? ==> IsQuotient(l, r, df))
        && (op.Remainder? ==>
              Leaves(l, r, Truncated(l.coeff, l.exp, r.coeff, r.exp), df) && df.coeff < y && df.neg == l.neg)
        && (op.RemNear? ==>
              var n := Nearest(l.coeff, l.exp, r.coeff, r.exp);
              Leaves(l, r, n, df) && 2 * df.coeff <= y && (2 * df.coeff == y ==> n % 2 == 0))
    ensures l.Finite? && r.Finite? && r.coeff == 0 ==>
      if l.coeff == 0 then df == NaN(false) && ctx.status == old(ctx.status) + {DivisionUndefined}
      else if op.Divide? || op.DivideInt?
      then df == Infinite(l.neg != r.neg) && ctx.status == old(ctx.status) + {DivisionByZero}
      else df == NaN(false) && ctx.status == old(ctx.status) + {InvalidOperation}
    ensures l.NaN? || r.NaN? ==> df == NaN(false) && ctx.status == old(ctx.status) + NaNRaises(l, r)
    ensures l.Infinite? && !r.NaN? ==>
      if r.Infinite? || op.Remainder? || op.RemNear?
      then df == NaN(false) && ctx.status == old(ctx.status) + {InvalidOperation}
      else df == Infinite(l.neg != r.neg) && ctx.status == old(ctx.status)
    ensures l.Finite? && r.Infinite? ==> ctx.status == old(ctx.status)
    ensures l.Finite? && r.Infinite? ==>
      df == if op.Divide? then Finite(l.neg != r.neg, 0, f.etiny)
            else if op.DivideInt? then Finite(l.neg != r.neg, 0, 0) else l
  {
    hide Pow, Truncated, Nearest, QuotientOutcome, RemainderNumber, Leaves, IsQuotient;
    if l.Finite? && r.Finite? && r.coeff != 0 {
      ImpossibleIff(f, l, r);
      QuotientIs(l, r);
      RemainderSize(l, r);
      RemainderLeaves(l, r, Truncated(l.coeff, l.exp, r.coeff, r.exp));
      RemainderLeaves(l, r, Nearest(l.coeff, l.exp, r.coeff, r.exp));
    }
    if !l.Finite? || !r.Finite? {
      df := DivideSpecial(f, l, r, ctx, op);
    } else if r.coeff == 0 {
      df := DivideByZero(l, r, ctx, op);
    } else if l.coeff == 0 {
      ZeroOver(f, l.neg, l.exp, r.coeff, r.exp);
      df := DivideZero(f, l, r, ctx, op);
    } else {
      df := DivideFinite(f, l, r, ctx, op, use64);
    }
  }

  lemma ZeroOver(f: Format, lneg: bool, el: int, cr: nat, er: int)
    requires cr > 0
    ensures Truncated(0, el, cr, er) == Nearest(0, el, cr, er) == 0 < Pow(10, f.p)
    ensures RemainderNumber(lneg, 0, el, cr, er, 0) == Finite(lneg, 0, LowExp(el, er))
  {
    hide Pow;
    var y := Divisor(cr, el, er);
    assert Dividend(0, el, er) == 0;
    assert 0 * y == 0;
    DivModUnique(0, y, 0, 0);
  }
}
