/** decNumCompare: numeric comparison, and total ordering, of two numbers that are not NaNs, from two
    windows of padded digits. */
module Comparison {
  import opened Arith
  import opened Digits
  import opened Rounding
  import opened Context
  import opened Finalizer
  import opened ExactSum
  import opened Addition

  /* ---- Specification ---- */

  /** The signed value of a finite number in units of 10^base. */
  function Signed(x: Number, base: int): int
    requires x.Finite? && base <= x.exp
  {
    if x.neg then -(Aligned(x.coeff, x.exp, base) as int) else Aligned(x.coeff, x.exp, base)
  }

  /** x < y, exactly. */
  predicate Less(x: Number, y: Number)
    requires !x.NaN? && !y.NaN?
  {
    if x.Infinite? then x.neg && !(y.Infinite? && y.neg)
    else if y.Infinite? then !y.neg
    else Signed(x, Min(x.exp, y.exp)) < Signed(y, Min(x.exp, y.exp))
  }

  /** x precedes y in the total order: by value; by sign where zeros differ only in that; and by
      exponent, upwards if positive and downwards if negative (section 5.10 of IEEE 754-2008). */
  predicate Precedes(x: Number, y: Number)
    requires !x.NaN? && !y.NaN?
  {
    Less(x, y) ||
    (!Less(y, x) && x.Finite? && y.Finite?
     && ((x.neg && !y.neg) || (x.neg == y.neg && if x.neg then y.exp < x.exp else x.exp < y.exp)))
  }

  /* ---- Both are orders ---- */

  lemma SignedDown(x: Number, base: int, base': int)
    requires x.Finite? && base' <= base <= x.exp
    ensures Signed(x, base') == Signed(x, base) * Pow(10, base - base')
  {
    hide Pow;
    AlignedDown(x.coeff, x.exp, base, base');
  }

  /** The comparison may be made at any common base. */
  lemma LessAt(x: Number, y: Number, base: int)
    requires x.Finite? && y.Finite? && base <= x.exp && base <= y.exp
    ensures Less(x, y) <==> Signed(x, base) < Signed(y, base)
  {
    hide Pow, Signed;
    var m := Min(x.exp, y.exp);
    SignedDown(x, m, base);
    SignedDown(y, m, base);
    MulCancel(Signed(x, m), Signed(y, m), Pow(10, m - base));
    MulCancel(Signed(y, m), Signed(x, m), Pow(10, m - base));
  }

  /** Less is a strict weak order. */
  lemma LessIsWeakOrder(x: Number, y: Number, z: Number)
    requires !x.NaN? && !y.NaN? && !z.NaN?
    ensures !(Less(x, y) && Less(y, x))
    ensures Less(x, y) && Less(y, z) ==> Less(x, z)
    ensures !Less(x, y) && !Less(y, z) ==> !Less(x, z)
  {
    hide Signed;
    if x.Finite? && y.Finite? && z.Finite? {
      var base := Min(x.exp, Min(y.exp, z.exp));
      LessAt(x, y, base);
      LessAt(y, x, base);
      LessAt(y, z, base);
      LessAt(x, z, base);
    }
  }

  /** Numerically equal numbers with the same exponent and sign are the same number. */
  lemma EqualIsIdentical(x: Number, y: Number)
    requires !x.NaN? && !y.NaN? && !Less(x, y) && !Less(y, x)
    requires x.Finite? && y.Finite? ==> x.neg == y.neg && x.exp == y.exp
    ensures x == y
  {
    if x.Finite? && y.Finite? {
      AlignedSelf(x.coeff, x.exp);
      AlignedSelf(y.coeff, y.exp);
    }
  }

  /** Precedes is a strict total order: antisymmetric, transitive, and blind only to identity. */
  lemma PrecedesIsTotalOrder(x: Number, y: Number, z: Number)
    requires !x.NaN? && !y.NaN? && !z.NaN?
    ensures !(Precedes(x, y) && Precedes(y, x))
    ensures Precedes(x, y) && Precedes(y, z) ==> Precedes(x, z)
    ensures Precedes(x, y) || Precedes(y, x) || x == y
    ensures x == y ==> !Precedes(x, y)
  {
    hide Less;
    LessIsWeakOrder(x, y, z);
    LessIsWeakOrder(y, z, x);
    LessIsWeakOrder(z, x, y);
    LessIsWeakOrder(x, z, y);
    LessIsWeakOrder(z, y, x);
    LessIsWeakOrder(y, x, z);
    if !Precedes(x, y) && !Precedes(y, x) {
      SpecialsApart(x, y);
      EqualIsIdentical(x, y);
    }
  }

  /** An infinity equals nothing but itself. */
  lemma SpecialsApart(x: Number, y: Number)
    requires !x.NaN? && !y.NaN? && !Less(x, y) && !Less(y, x)
    ensures x.Finite? <==> y.Finite?
  {}

  /* ---- Digit windows ---- */

  lemma {:induction false} ValLess(s: seq<nat>, t: seq<nat>, i: nat)
    requires |s| == |t| && i < |s| && AreDigits(s) && AreDigits(t) && s[..i] == t[..i] && s[i] < t[i]
    ensures Val(s) < Val(t)
  {
    hide Val, Pow;
    ValSplit(s, i);
    ValSplit(t, i);
    ValLeading(s[i..]);
    ValLeading(t[i..]);
    MulMono(s[i] + 1, t[i], Pow(10, |s| - 1 - i));
    assert (s[i] + 1) * Pow(10, |s| - 1 - i) == s[i] * Pow(10, |s| - 1 - i) + Pow(10, |s| - 1 - i);
  }

  /** Finds the first of the digits that differ, and which side it favours. */
  method FirstDifference(bufl: array<nat>, atl: nat, bufr: array<nat>, atr: nat, w: nat, u0: nat) returns (c: int)
    requires atl + w <= bufl.Length && atr + w <= bufr.Length && u0 < w
    requires AreDigits(bufl[atl..atl + w]) && AreDigits(bufr[atr..atr + w])
    requires bufl[atl..atl + w][..u0] == bufr[atr..atr + w][..u0] && bufl[atl..atl + w] != bufr[atr..atr + w]
    ensures c == if Val(bufl[atl..atl + w]) < Val(bufr[atr..atr + w]) then -1 else 1
    ensures c == 1 ==> Val(bufl[atl..atl + w]) > Val(bufr[atr..atr + w])
  {
    hide Val;
    ghost var s, t := bufl[atl..atl + w], bufr[atr..atr + w];
    var u := u0;
    while true
      invariant u < w && s[..u] == t[..u]
      decreases w - u
    {
      assert s[u] == bufl[atl + u] && t[u] == bufr[atr + u];
      if bufl[atl + u] > bufr[atr + u] { ValLess(t, s, u); return 1; }
      if bufl[atl + u] < bufr[atr + u] { ValLess(s, t, u); return -1; }
      PrefixGrows(s, t, u);
      DifferenceLeft(s, t, u + 1);
      u := u + 1;
    }
  }

  lemma DifferenceLeft(s: seq<nat>, t: seq<nat>, u: nat)
    requires u <= |s| == |t| && s[..u] == t[..u] && s != t
    ensures u < |s|
  {
    assert s[..|s|] == s && t[..|t|] == t;
  }

  lemma PrefixGrows(s: seq<nat>, t: seq<nat>, u: nat)
    requires u < |s| == |t| && s[..u] == t[..u] && s[u] == t[u]
    ensures s[..u + 1] == t[..u + 1]
  {
    assert s[..u + 1] == s[..u] + [s[u]] && t[..u + 1] == t[..u] + [t[u]];
  }

  /** Compares w digits, four at a time, and byte by byte within the first word that differs. */
  method CompareWindows(bufl: array<nat>, atl: nat, bufr: array<nat>, atr: nat, w: nat) returns (c: int)
    requires w % 4 == 0 && atl + w <= bufl.Length && atr + w <= bufr.Length
    requires AreDigits(bufl[atl..atl + w]) && AreDigits(bufr[atr..atr + w])
    ensures c == if Val(bufl[atl..atl + w]) < Val(bufr[atr..atr + w]) then -1
                 else if Val(bufl[atl..atl + w]) > Val(bufr[atr..atr + w]) then 1 else 0
  {
    hide Val;
    ghost var s, t := bufl[atl..atl + w], bufr[atr..atr + w];
    var u: nat := 0;
    while u < w
      invariant u % 4 == 0 && u <= w && s[..u] == t[..u]
    {
      assert s[u] == bufl[atl + u] && s[u + 1] == bufl[atl + u + 1] && s[u + 2] == bufl[atl + u + 2]
        && s[u + 3] == bufl[atl + u + 3];
      assert t[u] == bufr[atr + u] && t[u + 1] == bufr[atr + u + 1] && t[u + 2] == bufr[atr + u + 2]
        && t[u + 3] == bufr[atr + u + 3];
      if !WordsEqual(bufl, atl + u, bufr, atr + u) {
        c := FirstDifference(bufl, atl, bufr, atr, w, u);
        return;
      }
      PrefixGrows(s, t, u); PrefixGrows(s, t, u + 1); PrefixGrows(s, t, u + 2); PrefixGrows(s, t, u + 3);
      u := u + 4;
    }
    assert s[..w] == s && t[..w] == t;
    return 0;
  }

  predicate WordsEqual(a: array<nat>, i: nat, b: array<nat>, j: nat)
    requires i + 4 <= a.Length && j + 4 <= b.Length
    reads a, b
  {
    a[i] == b[j] && a[i + 1] == b[j + 1] && a[i + 2] == b[j + 2] && a[i + 3] == b[j + 3]
  }

  /** Are there digits other than zero among the first shift? By fours first when there are many. */
  method LeadIn(buf: array<nat>, shift: nat) returns (nonzero: bool)
    requires shift <= buf.Length
    ensures nonzero <==> exists i :: 0 <= i < shift && buf[i] != 0
  {
    var ub: nat := 0;
    if shift > 8 {
      while true
        invariant ub + 4 <= shift && forall i :: 0 <= i < ub ==> buf[i] == 0
        decreases shift - ub
      {
        if !FourAre(buf, ub, 0) { return true; }
        if ub + 4 > shift - 4 { break; }
        ub := ub + 4;
      }
    }
    while ub < shift
      invariant ub <= shift && forall i :: 0 <= i < ub ==> buf[i] == 0
    {
      if buf[ub] != 0 { return true; }
      ub := ub + 1;
    }
    return false;
  }

  /* ---- decNumCompare ---- */

  /** The coefficient in whole words of digits, with shift zeros to its right. */
  method PaddedCoeff(f: Format, c: nat, shift: nat) returns (buf: array<nat>)
    requires f.Valid() && c < Pow(10, f.p) && shift < f.p
    ensures fresh(buf) && buf.Length == 2 * f.p + Prefix(f) + 4
    ensures AreDigits(buf[..Width(f) + shift]) && Val(buf[..Width(f) + shift]) == c * Pow(10, shift)
  {
    hide Val, Pow;
    buf := new nat[2 * f.p + Prefix(f) + 4];
    FillZeros(buf, 0, Prefix(f));
    GetCoeff(buf, Prefix(f), c, f.p);
    ghost var s := buf[..Width(f)];
    assert s[Prefix(f)..] == buf[Prefix(f)..Prefix(f) + f.p];
    ZerosInFront(s, Prefix(f));
    FillZeros(buf, Width(f), Width(f) + shift);
    ghost var t := buf[..Width(f) + shift];
    assert t == s + Zeros(shift);
    ValPadded(shift, s);
  }

  /** The higher exponent's coefficient, padded, against the other's: its leading digits must be zero
      for the windows to matter. Returns the sign of ch * 10^shift - cl. */
  method ComparePadded(f: Format, ch: nat, cl: nat, shift: nat) returns (c: int)
    requires f.Valid() && ch < Pow(10, f.p) && cl < Pow(10, f.p) && shift < f.p
    ensures c == if ch * Pow(10, shift) < cl then -1 else if ch * Pow(10, shift) > cl then 1 else 0
  {
    hide Val, Pow, Width, Prefix;
    WidthInWords(f);
    SmallPowers();
    var bufh := PaddedCoeff(f, ch, shift);
    var bufl := PaddedCoeff(f, cl, 0);
    var w := Width(f);
    ghost var s := bufh[..w + shift];
    assert bufl[..w + 0] == bufl[0..w] && s[shift..] == bufh[shift..shift + w];
    assert forall i :: 0 <= i < shift ==> s[i] == bufh[i];
    ValSplit(s, shift);
    ValBound(bufl[0..w]);
    var nonzero := LeadIn(bufh, shift);
    if nonzero {
      LeadCounts(s[..shift], Pow(10, w));
      return 1;
    }
    ValZeros(s[..shift]);
    assert 0 * Pow(10, w) == 0;
    c := CompareWindows(bufh, shift, bufl, 0, w);
  }

  lemma LeadCounts(s: seq<nat>, p: nat)
    requires exists i :: 0 <= i < |s| && s[i] != 0
    ensures Val(s) * p >= p
  {
    hide Val;
    ValZeros(s);
    MulMono(1, Val(s), p);
  }

  /** The two magnitudes: exponents too far apart decide at once, otherwise the digits do. */
  method CompareMagnitudes(f: Format, l: Number, r: Number) returns (c: int)
    requires f.Valid() && Holds(f, l) && Holds(f, r) && l.coeff != 0 && r.coeff != 0
    ensures var m := Min(l.exp, r.exp); var x, y := Aligned(l.coeff, l.exp, m), Aligned(r.coeff, r.exp, m);
      c == if x < y then -1 else if x > y then 1 else 0
  {
    hide Pow;
    var shift := l.exp - r.exp;
    AlignedSelf(l.coeff, l.exp);
    AlignedSelf(r.coeff, r.exp);
    if shift >= f.p || -shift >= f.p {
      FarApart(f, l.coeff, r.coeff, if shift > 0 then shift else -shift);
      FarApart(f, r.coeff, l.coeff, if shift > 0 then shift else -shift);
      c := if shift > 0 then 1 else -1;
    } else if shift >= 0 {
      c := ComparePadded(f, l.coeff, r.coeff, shift);
    } else {
      c := ComparePadded(f, r.coeff, l.coeff, -shift);
      c := -c;
    }
  }

  lemma FarApart(f: Format, x: nat, y: nat, shift: nat)
    requires x > 0 && y < Pow(10, f.p) && shift >= f.p
    ensures x * Pow(10, shift) > y
  {
    hide Pow;
    PowMono(10, f.p, shift);
    MulMono(1, x, Pow(10, shift));
  }

  /** The order as a sign. */
  function Numerically(l: Number, r: Number): int
    requires !l.NaN? && !r.NaN?
  {
    if Less(l, r) then -1 else if Less(r, l) then 1 else 0
  }

  function Totally(l: Number, r: Number): int
    requires !l.NaN? && !r.NaN?
  {
    if Precedes(l, r) then -1 else if Precedes(r, l) then 1 else 0
  }

  /* ---- What they are ---- */

  /** The signed value, counted in units of 10^m. */
  lemma SignedIs(x: Number, m: int)
    requires x.Finite? && m <= x.exp
    ensures Signed(x, m) == (if x.neg then -1 else 1) * (x.coeff * Pow(10, x.exp - m))
  {}

  /** The numeric order is the sign of the exact difference l - r, and an infinity is beyond every finite
      number on its side. */
  lemma NumericallyIs(l: Number, r: Number)
    requires !l.NaN? && !r.NaN?
    ensures l.Finite? && r.Finite? ==>
      var m := Min(l.exp, r.exp);
      var x: int := (if l.neg then -1 else 1) * (l.coeff * Pow(10, l.exp - m));
      var y: int := (if r.neg then -1 else 1) * (r.coeff * Pow(10, r.exp - m));
      Numerically(l, r) == if x < y then -1 else if x > y then 1 else 0
    ensures l.Infinite? && (r.Finite? || r.neg != l.neg) ==> Numerically(l, r) == if l.neg then -1 else 1
    ensures r.Infinite? && (l.Finite? || r.neg != l.neg) ==> Numerically(l, r) == if r.neg then 1 else -1
    ensures l.Infinite? && r == l ==> Numerically(l, r) == 0
  {
    hide Pow;
    if l.Finite? && r.Finite? {
      SignedIs(l, Min(l.exp, r.exp));
      SignedIs(r, Min(l.exp, r.exp));
      hide Signed;
    }
  }

  /** The total order is the numeric one except among equal numbers: of those the negative zero comes before
      the positive one, and otherwise the lower exponent comes first if positive and last if negative. */
  lemma TotallyIs(l: Number, r: Number)
    requires !l.NaN? && !r.NaN?
    ensures Numerically(l, r) != 0 ==> Totally(l, r) == Numerically(l, r)
    ensures Numerically(l, r) == 0 && l.neg != r.neg ==> Totally(l, r) == if l.neg then -1 else 1
    ensures Numerically(l, r) == 0 && l.neg == r.neg && l.Finite? ==>
      r.Finite? && Totally(l, r) == if l.exp == r.exp then 0 else if l.exp < r.exp then (if l.neg then 1 else -1)
                                    else if l.neg then -1 else 1
    ensures l.Infinite? && r == l ==> Totally(l, r) == 0
  {
    LessIsWeakOrder(l, r, l);
    if Numerically(l, r) == 0 { SpecialsApart(l, r); }
    hide Less;
  }

  /** Two ways to write one number, k places apart: the one with more digits comes before the other if it is
      positive, and after it if it is negative. Zeros of one sign are in the same order. */
  lemma CohortOrder(neg: bool, c: nat, e: int, k: nat)
    requires k > 0
    ensures var long, short := Finite(neg, c * Pow(10, k), e), Finite(neg, c, e + k);
      && Numerically(long, short) == 0
      && Totally(long, short) == (if neg then 1 else -1) && Totally(short, long) == (if neg then -1 else 1)
  {
    var long, short := Finite(neg, c * Pow(10, k), e), Finite(neg, c, e + k);
    SmallPowers();
    assert Signed(long, e) == Signed(short, e);
    hide Pow, Signed;
    TotallyIs(long, short);
    TotallyIs(short, long);
  }

  /** A negative zero comes before a positive one, whatever their exponents, although they compare equal. */
  lemma ZeroOrder(e1: int, e2: int)
    ensures var minus, plus := Finite(true, 0, e1), Finite(false, 0, e2);
      Numerically(minus, plus) == 0 && Totally(minus, plus) == -1 && Totally(plus, minus) == 1
  {
    var minus, plus := Finite(true, 0, e1), Finite(false, 0, e2);
    var m := Min(e1, e2);
    AlignedZero(minus, m);
    AlignedZero(plus, m);
    assert Signed(minus, m) == 0 == Signed(plus, m);
    hide Signed;
    TotallyIs(minus, plus);
    TotallyIs(plus, minus);
  }

  /** decNumCompare: the sign of the exact difference or, if tot, the total order. */
  method NumCompare(f: Format, l: Number, r: Number, tot: bool) returns (c: int)
    requires f.Valid() && IsNumber(f, l) && IsNumber(f, r) && !l.NaN? && !r.NaN?
    ensures c == if tot then Totally(l, r) else Numerically(l, r)
  {
    hide Pow, Less;
    var sigl := 1;
    SignsDecide(l, r);
    SignsDecide(r, l);
    if l.neg {
      if !r.neg {
        if IsZero(l) && IsZero(r) && !tot { return 0; }
        return -1;
      }
      sigl := -1;
    } else if r.neg {
      if IsZero(l) && IsZero(r) && !tot { return 0; }
      return 1;
    }
    var sigr := -sigl;
    InfinitiesDecide(l, r);
    InfinitiesDecide(r, l);
    if l.Infinite? {
      if r.Infinite? { return 0; }
      return sigl;
    }
    if r.Infinite? { return sigr; }
    var shift := l.exp - r.exp;
    ZerosDecide(l, r);
    ZerosDecide(r, l);
    if l.coeff == 0 {
      if r.coeff != 0 { return sigr; }
      if shift == 0 || !tot { return 0; }
      return if shift > 0 then sigl else sigr;
    }
    if r.coeff == 0 { return sigl; }
    var m := CompareMagnitudes(f, l, r);
    MagnitudesDecide(l, r);
    MagnitudesDecide(r, l);
    if m > 0 { return sigl; }
    if m < 0 { return sigr; }
    if !tot { return 0; }
    if shift > 0 { return sigl; }
    if shift < 0 { return sigr; }
    return 0;
  }

  lemma AlignedZero(x: Number, m: int)
    requires x.Finite? && m <= x.exp
    ensures Aligned(x.coeff, x.exp, m) == 0 <==> x.coeff == 0
  {
    if x.coeff > 0 { MulPos(x.coeff, Pow(10, x.exp - m)); }
  }

  lemma SignsDecide(x: Number, y: Number)
    requires !x.NaN? && !y.NaN?
    ensures x.neg && !y.neg ==> !Less(y, x) && (Less(x, y) <==> !(IsZero(x) && IsZero(y)))
  {
    hide Pow, Aligned;
    if x.Finite? && y.Finite? {
      AlignedZero(x, Min(x.exp, y.exp));
      AlignedZero(y, Min(x.exp, y.exp));
    }
  }

  lemma InfinitiesDecide(x: Number, y: Number)
    requires !x.NaN? && !y.NaN?
    ensures x.Infinite? && y.Infinite? && x.neg == y.neg ==> !Less(x, y)
    ensures x.Infinite? && y.Finite? && x.neg == y.neg ==>
      (if x.neg then Less(x, y) && !Less(y, x) else Less(y, x) && !Less(x, y))
  {}

  lemma ZerosDecide(x: Number, y: Number)
    requires x.Finite? && y.Finite?
    ensures IsZero(x) && IsZero(y) ==> !Less(x, y)
    ensures IsZero(x) && !IsZero(y) && x.neg == y.neg ==>
      (if x.neg then Less(y, x) && !Less(x, y) else Less(x, y) && !Less(y, x))
  {
    hide Pow, Aligned;
    AlignedZero(x, Min(x.exp, y.exp));
    AlignedZero(y, Min(x.exp, y.exp));
  }

  lemma MagnitudesDecide(x: Number, y: Number)
    requires x.Finite? && y.Finite? && x.neg == y.neg
    ensures var m := Min(x.exp, y.exp); var a, b := Aligned(x.coeff, x.exp, m), Aligned(y.coeff, y.exp, m);
      Less(x, y) <==> if x.neg then b < a else a < b
  {
    hide Pow, Aligned;
  }
}
