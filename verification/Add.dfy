/** decFloatAdd: a base-1000 fast path, and a slow path that lays out, aligns, adds by words and
    settles carry, borrow and sign. */
module Addition {
  import opened Arith
  import opened Digits
  import opened Rounding
  import opened Context
  import opened Finalizer
  import opened ExactSum
  import opened FusedAdd
  import opened DivisionOps
  import opened IntegerDivision
  import opened WordAdd

  /* ---- The stand-in for a far-away addend ---- */

  /** What the slow path adds to an lhs of exponent eh: the rhs, or one sticky digit just beyond the
      digits that can matter. */
  function AddendCoeff(f: Format, eh: int, c: nat, e: int): nat {
    if eh - e > 2 * f.p then (if c == 0 then 0 else 1) else c
  }

  function AddendExp(f: Format, eh: int, e: int): int {
    if eh - e > 2 * f.p then eh - f.p - 1 else e
  }

  /** The stand-in gives the same rounded sum and flags as the addend itself. */
  lemma StandInHarmless(f: Format, mode: Mode, n1: bool, c1: nat, e1: int, n2: bool, c2: nat, e2: int)
    requires f.Valid() && e2 <= e1 && 0 < c1 && c2 < Pow(10, f.p)
    ensures SumOutcome(f, mode, n1, c1, e1, n2, AddendCoeff(f, e1, c2, e2), AddendExp(f, e1, e2))
         == SumOutcome(f, mode, n1, c1, e1, n2, c2, e2)
  {
    hide Pow, SumOutcome, NumDigits, Below, Aligned;
    if e1 - e2 > 2 * f.p {
      var e3 := e1 - f.p - 1;
      if c2 == 0 {
        NumDigitsBounds(c1);
        ReplaceFarZero(f, mode, n1, c1, e1, n2, e2, e3, NumDigits(c1));
      } else {
        FarMultiple(f, c1, e1);
        FarBelow(f, c2, e2, e3);
        UnitBelow(e3);
        ReplaceFar(f, mode, n1, c1, e1, n2, c2, e2, 1, e3, 5, e3);
      }
    }
  }

  lemma FarMultiple(f: Format, c1: nat, e1: int)
    requires f.Valid() && c1 > 0
    ensures Aligned(c1, e1, e1 - f.p - 1) % 5 == 0 && Aligned(c1, e1, e1 - f.p - 1) >= Pow(10, f.p) + 5
  {
    TenIsEven(f.p + 1);
    SmallPowers();
    hide Pow;
    PowMono(10, 1, f.p);
    TenTimesLarge(c1, Pow(10, f.p));
  }

  lemma TenTimesLarge(c: nat, t: nat)
    requires c > 0 && t >= 10
    ensures c * (10 * t) % 5 == 0 && c * (10 * t) >= t + 5
  {
    MulMono(1, c, t);
    var x := c * t;
    assert c * (10 * t) == 10 * x;
  }

  lemma FarBelow(f: Format, c2: nat, e2: int, g: int)
    requires c2 < Pow(10, f.p) && e2 + f.p <= g
    ensures Below(c2, e2, 5, g)
  {
    hide Pow;
    PowMono(10, f.p, g - e2);
    SmallPowers();
  }

  lemma UnitBelow(g: int)
    ensures Below(1, g, 5, g)
  {}

  /* ---- Layout ---- */

  /** Zero digits in front of the coefficient that make whole words (the 00 of a quad). */
  function Prefix(f: Format): nat { (4 - f.p % 4) % 4 }

  /** The digits that the word loop adds. */
  function Width(f: Format): nat { Prefix(f) + f.p }

  lemma WidthInWords(f: Format)
    ensures Width(f) % 4 == 0 && Width(f) == Prefix(f) + f.p
  {}

  /** GETCOEFF: the p digits of a coefficient, at ub. */
  method GetCoeff(buf: array<nat>, at: nat, c: nat, p: nat)
    requires at + p <= buf.Length && c < Pow(10, p)
    modifies buf
    ensures AreDigits(buf[at..at + p]) && Val(buf[at..at + p]) == c
    ensures forall i :: 0 <= i < buf.Length && !(at <= i < at + p) ==> buf[i] == old(buf[i])
  {
    hide Val, Pow, DecimalDigits;
    var s := DecimalDigits(c, p);
    DecimalDigitsValue(c, p);
    forall i | 0 <= i < p { buf[at + i] := s[i]; }
    assert buf[at..at + p] == s;
  }

  method FillZeros(buf: array<nat>, from: nat, to: nat)
    requires from <= to <= buf.Length
    modifies buf
    ensures forall i :: from <= i < to ==> buf[i] == 0
    ensures forall i :: 0 <= i < buf.Length && !(from <= i < to) ==> buf[i] == old(buf[i])
  {
    var ut := from;
    while ut < to
      invariant from <= ut <= to
      invariant forall i :: from <= i < ut ==> buf[i] == 0
      invariant forall i :: 0 <= i < buf.Length && !(from <= i < ut) ==> buf[i] == old(buf[i])
    {
      buf[ut] := 0;
      ut := ut + 1;
    }
  }

  /** The digits from..to of an array, as a value: zeros in front do not count. */
  lemma ZerosInFront(s: seq<nat>, z: nat)
    requires z <= |s| && (forall i :: 0 <= i < z ==> s[i] == 0) && AreDigits(s[z..])
    ensures AreDigits(s) && Val(s) == Val(s[z..])
  {
    hide Val, Pow;
    assert s == Zeros(z) + s[z..];
    ValPadded(z, s[z..]);
  }

  /** The lhs coefficient in acc from 4, prefixed to whole words, and complemented if the signs differ. */
  method LayLhs(f: Format, c: nat, diffsign: bool) returns (acc: array<nat>)
    requires f.Valid() && c < Pow(10, f.p)
    ensures fresh(acc) && acc.Length == 4 + Prefix(f) + 3 * f.p + 8
    ensures AreDigits(acc[4..4 + Width(f)])
    ensures Val(acc[4..4 + Width(f)]) == if diffsign then Pow(10, Width(f)) - 1 - c else c
  {
    hide Val, Pow;
    var coff := 4 + Prefix(f);
    acc := new nat[coff + 3 * f.p + 8];
    FillZeros(acc, 4, coff);
    GetCoeff(acc, coff, c, f.p);
    ghost var s := acc[4..4 + Width(f)];
    assert s[Prefix(f)..] == acc[coff..coff + f.p];
    ZerosInFront(s, Prefix(f));
    if diffsign {
      ValComplement(s);
      ComplementDigits(acc, 4, 3 + Width(f));
    }
  }

  /** Digits followed by others: the value of the two together. */
  lemma Joined(s: seq<nat>, n: nat, x: nat, y: nat)
    requires n <= |s| && AreDigits(s[..n]) && AreDigits(s[n..]) && Val(s[..n]) == x && Val(s[n..]) == y
    ensures AreDigits(s) && Val(s) == x * Pow(10, |s| - n) + y
  {
    ValSplit(s, n);
    assert forall i :: 0 <= i < |s| ==> s[i] == if i < n then s[..n][i] else s[n..][i - n];
  }

  /** The sum so far: x is lhs moved up by n digits. A missing carry out of w digits is a borrow. */
  ghost predicate Laid(digits: seq<nat>, w: nat, carry: nat, diffsign: bool, x: nat, c2: nat) {
    && AreDigits(digits) && |digits| == w && carry <= 1 && x < Pow(10, w)
    && carry * Pow(10, w) + Val(digits) == c2 + if diffsign then Pow(10, w) - x else x
  }

  lemma LaidFrom(f: Format, s: seq<nat>, n: nat, carry: nat, diffsign: bool, c1: nat, top: nat, tail: nat, c2: nat)
    requires f.Valid() && |s| == Width(f) + n && AreDigits(s) && c1 < Pow(10, f.p) && carry <= 1
    requires Val(s) == top * Pow(10, n) + tail
    requires carry * Pow(10, Width(f)) * Pow(10, n) + top * Pow(10, n) + tail
          == (if diffsign then Pow(10, Width(f)) - c1 else c1) * Pow(10, n) + c2
    ensures Laid(s, Width(f) + n, carry, diffsign, c1 * Pow(10, n), c2)
  {
    hide Val, Pow;
    PowAdd(10, Width(f), n);
    PowMono(10, f.p, Width(f));
    hide Width;
    LaidArith(Pow(10, Width(f)), Pow(10, n), c1, carry, Val(s), if diffsign then Pow(10, Width(f)) - c1 else c1);
  }

  lemma LaidArith(p: nat, q: nat, c1: nat, carry: nat, v: nat, x: nat)
    requires c1 < p && q > 0 && (x == c1 || x == p - c1)
    ensures c1 * q < p * q && carry * p * q == carry * (p * q)
    ensures x * q == if x == c1 then c1 * q else p * q - c1 * q
    ensures (p - c1) * q == p * q - c1 * q
  {
    MulStrict(c1, p, q);
    MulAssoc(carry, p, q);
  }

  /** The rhs coefficient wholly right of the lhs: a gap of zeros, then its digits or, if the gap is
      wider than p, a single sticky digit. */
  method LayGap(f: Format, acc: array<nat>, eh: int, cr: nat, el: int, diffsign: bool, ghost c1: nat)
    returns (lsd: nat, e2: int)
    requires f.Valid() && cr < Pow(10, f.p) && 0 < c1 < Pow(10, f.p) && eh - el >= f.p
    requires acc.Length == 4 + Prefix(f) + 3 * f.p + 8 && AreDigits(acc[4..4 + Width(f)])
    requires Val(acc[4..4 + Width(f)]) == if diffsign then Pow(10, Width(f)) - 1 - c1 else c1
    modifies acc
    ensures e2 == AddendExp(f, eh, el) <= eh && lsd == 3 + Width(f) + (eh - e2) < acc.Length
    ensures Laid(acc[4..lsd + 1], lsd - 3, 0, diffsign, c1 * Pow(10, eh - e2), AddendCoeff(f, eh, cr, el))
  {
    hide Val, Pow, Laid;
    var w := Width(f);
    PowMono(10, f.p, w);
    if diffsign { PlusOne(acc, 4, 3 + w); }
    ghost var top := acc[4..4 + w];
    var gap := eh - el - f.p;
    e2 := el;
    if gap > f.p {
      e2 := e2 + gap - 1;
      gap := f.p;
    }
    lsd := LayTail(acc, 4 + w, gap, cr, f.p, eh - el > 2 * f.p);
    assert acc[4..4 + w] == top;
    GapValue(f, acc[..], lsd, gap, diffsign, c1, AddendCoeff(f, eh, cr, el));
  }

  /** A gap of zeros, then the coefficient or its sticky digit. */
  method LayTail(acc: array<nat>, at: nat, gap: nat, cr: nat, p: nat, sticky: bool) returns (lsd: nat)
    requires p > 0 && cr < Pow(10, p) && at + gap + p <= acc.Length && at > 0
    modifies acc
    ensures lsd == at + gap + (if sticky then 1 else p) - 1
    ensures forall i :: at <= i < at + gap ==> acc[i] == 0
    ensures AreDigits(acc[at + gap..lsd + 1])
    ensures Val(acc[at + gap..lsd + 1]) == if sticky then (if cr == 0 then 0 else 1) else cr
    ensures forall i :: 0 <= i < at ==> acc[i] == old(acc[i])
  {
    hide Val, Pow;
    var ub := at + gap;
    FillZeros(acc, at, ub);
    if sticky {
      acc[ub] := if cr == 0 then 0 else 1;
      lsd := ub;
      assert acc[ub..lsd + 1] == [acc[ub]];
      ValOne(acc[ub]);
    } else {
      GetCoeff(acc, ub, cr, p);
      lsd := ub + p - 1;
    }
  }

  lemma GapValue(f: Format, s: seq<nat>, lsd: nat, gap: nat, diffsign: bool, c1: nat, c2: nat)
    requires f.Valid() && 4 + Width(f) + gap <= lsd + 1 <= |s| && c1 < Pow(10, f.p)
    requires AreDigits(s[4..4 + Width(f)]) && AreDigits(s[4 + Width(f) + gap..lsd + 1])
    requires forall i :: 4 + Width(f) <= i < 4 + Width(f) + gap ==> s[i] == 0
    requires Val(s[4..4 + Width(f)]) == if diffsign then Pow(10, Width(f)) - c1 else c1
    requires Val(s[4 + Width(f) + gap..lsd + 1]) == c2
    ensures Laid(s[4..lsd + 1], lsd - 3, 0, diffsign, c1 * Pow(10, lsd - 3 - Width(f)), c2)
  {
    hide Val, Pow, Laid, Width;
    var w := Width(f);
    var d, rest := s[4..lsd + 1], s[4 + w..lsd + 1];
    SubSlice(s, 4 + w, lsd + 1, gap, lsd - 3 - w);
    ZerosInFront(rest, gap);
    SubSlice(s, 4, lsd + 1, 0, w);
    SubSlice(s, 4, lsd + 1, w, lsd - 3);
    Joined(d, w, Val(s[4..4 + w]), c2);
    ValBound(s[4..4 + w]);
    assert 0 * Pow(10, w) * Pow(10, lsd - 3 - w) == 0;
    LaidFrom(f, d, lsd - 3 - w, 0, diffsign, c1, Val(s[4..4 + w]), c2, c2);
  }

  /** The rhs in a buffer of its own, below the lhs by n digits. */
  method LayRhs(f: Format, n: nat, cr: nat) returns (buf: array<nat>)
    requires f.Valid() && cr < Pow(10, f.p) && n < f.p
    ensures fresh(buf) && buf.Length == 4 + Prefix(f) + 2 * f.p
    ensures AreDigits(buf[4..4 + Width(f) + n]) && Val(buf[4..4 + Width(f) + n]) == cr
  {
    hide Val, Pow;
    var coff := 4 + Prefix(f);
    buf := new nat[coff + 2 * f.p];
    var ub := coff + n;
    FillZeros(buf, 4, ub);
    GetCoeff(buf, ub, cr, f.p);
    ghost var s := buf[4..4 + Width(f) + n];
    assert s[Prefix(f) + n..] == buf[ub..ub + f.p];
    ZerosInFront(s, Prefix(f) + n);
  }

  method CopyTail(acc: array<nat>, buf: array<nat>, from: nat, to: nat)
    requires acc != buf && from <= to <= acc.Length && to <= buf.Length
    modifies acc
    ensures acc[from..to] == buf[from..to]
    ensures forall i :: 0 <= i < acc.Length && !(from <= i < to) ==> acc[i] == old(acc[i])
  {
    var us := from;
    while us < to
      invariant from <= us <= to
      invariant forall i :: from <= i < us ==> acc[i] == buf[i]
      invariant forall i :: 0 <= i < acc.Length && !(from <= i < us) ==> acc[i] == old(acc[i])
    {
      acc[us] := buf[us];
      us := us + 1;
    }
  }

  /** Moves the tail of buf across to acc and adds the words left of it. */
  method CopyAndAdd(acc: array<nat>, buf: array<nat>, w: nat, n: nat, carry0: nat, ghost c: nat)
    returns (carry: nat, ghost c': nat)
    requires acc != buf && w % 4 == 0 && 4 + w + n <= acc.Length && 4 + w + n <= buf.Length && c <= 1
    requires carry0 == Pattern(c)
    requires AreDigits(acc[4..4 + w]) && AreDigits(buf[4..4 + w + n])
    modifies acc
    ensures c' <= 1 && carry == Pattern(c')
    ensures var t, s := acc[4..4 + w + n], buf[4..4 + w + n];
      && t[w..] == s[w..] && AreDigits(t[..w])
      && c' * Pow(10, w) + Val(t[..w]) == old(Val(acc[4..4 + w])) + Val(s[..w]) + c
  {
    hide Val, Pow, Pattern;
    ghost var s, top := buf[4..4 + w + n], acc[4..4 + w];
    CopyTail(acc, buf, 4 + w, 4 + w + n);
    assert acc[4..4 + w] == top;
    SubSlice(buf[..], 4, 4 + w + n, 0, w);
    SubSlice(buf[..], 4, 4 + w + n, w, w + n);
    ghost var tail := acc[4 + w..4 + w + n];
    assert buf[4..4 + w] == s[..w] && tail == s[w..];
    carry, c' := AddWords(acc, buf, 4, w, carry0, c);
    assert acc[4 + w..4 + w + n] == tail;
    SubSlice(acc[..], 4, 4 + w + n, 0, w);
    SubSlice(acc[..], 4, 4 + w + n, w, w + n);
  }

  /** Overlapping coefficients: the rhs goes to a buffer of its own, its tail to acc, and the rest is
      added by words. */
  method LayOverlap(f: Format, acc: array<nat>, n: nat, cr: nat, diffsign: bool, ghost c1: nat)
    returns (lsd: nat, carry: nat, ghost c': nat)
    requires f.Valid() && cr < Pow(10, f.p) && 0 < c1 < Pow(10, f.p) && n < f.p
    requires acc.Length == 4 + Prefix(f) + 3 * f.p + 8 && AreDigits(acc[4..4 + Width(f)])
    requires Val(acc[4..4 + Width(f)]) == if diffsign then Pow(10, Width(f)) - 1 - c1 else c1
    modifies acc
    ensures lsd == 3 + Width(f) + n < acc.Length && c' <= 1 && carry == Pattern(c')
    ensures Laid(acc[4..lsd + 1], lsd - 3, c', diffsign, c1 * Pow(10, n), cr)
  {
    hide Val, Pow, Laid, Pattern, Width, Prefix;
    WidthInWords(f);
    var w := Width(f);
    ghost var top := Val(acc[4..4 + w]);
    var buf := LayRhs(f, n, cr);
    lsd := 3 + w + n;
    carry, c' := CopyAndAdd(acc, buf, w, n, if diffsign then Pattern(1) else Pattern(0), if diffsign then 1 else 0);
    OverlapValue(f, acc[4..lsd + 1], buf[4..4 + w + n], n, c', diffsign, c1, top, cr);
  }

  lemma OverlapValue(f: Format, t: seq<nat>, s: seq<nat>, n: nat, c': nat, diffsign: bool, c1: nat, base: nat, cr: nat)
    requires f.Valid() && |t| == |s| == Width(f) + n && t[Width(f)..] == s[Width(f)..] && c1 < Pow(10, f.p) && c' <= 1
    requires AreDigits(t[..Width(f)]) && AreDigits(s) && Val(s) == cr
    requires base == if diffsign then Pow(10, Width(f)) - 1 - c1 else c1
    requires c' * Pow(10, Width(f)) + Val(t[..Width(f)]) == base + Val(s[..Width(f)]) + if diffsign then 1 else 0
    ensures Laid(t, |t|, c', diffsign, c1 * Pow(10, n), cr)
  {
    hide Val, Pow, Laid;
    var w := Width(f);
    ValSplit(s, w);
    Joined(t, w, Val(t[..w]), Val(s[w..]));
    ValBound(t[..w]);
    var p, q := Pow(10, w), Pow(10, n);
    OverlapArith(c', p, q, Val(t[..w]), base, Val(s[..w]), if diffsign then 1 else 0);
    LaidFrom(f, t, n, c', diffsign, c1, Val(t[..w]), Val(s[w..]), cr);
  }

  lemma OverlapArith(c: nat, p: nat, q: nat, t: nat, base: nat, s: nat, one: nat)
    requires c * p + t == base + s + one
    ensures c * p * q + t * q == (base + one) * q + s * q
  {
    assert (c * p + t) * q == c * p * q + t * q;
    assert (base + one + s) * q == (base + one) * q + s * q;
  }

  /** Left of the carry or borrow: either operand may turn out the larger. */
  method LayOut(f: Format, cl: nat, eh: int, cr: nat, el: int, diffsign: bool)
    returns (acc: array<nat>, lsd: nat, carry: nat, e2: int, ghost c': nat)
    requires f.Valid() && 0 < cl < Pow(10, f.p) && cr < Pow(10, f.p) && el <= eh
    ensures fresh(acc) && e2 == AddendExp(f, eh, el) <= eh && lsd == 3 + Width(f) + (eh - e2) < acc.Length
    ensures acc.Length > 4 && c' <= 1 && carry == Pattern(c')
    ensures Laid(acc[4..lsd + 1], lsd - 3, c', diffsign, cl * Pow(10, eh - e2), AddendCoeff(f, eh, cr, el))
  {
    hide Val, Pow, Laid, Width, Prefix;
    acc := LayLhs(f, cl, diffsign);
    if eh - el >= f.p {
      carry, c' := 0, 0;
      lsd, e2 := LayGap(f, acc, eh, cr, el, diffsign, cl);
    } else {
      e2 := el;
      lsd, carry, c' := LayOverlap(f, acc, eh - el, cr, diffsign, cl);
    }
  }

  /* ---- Carry, borrow and sign ---- */

  lemma LaidRange(digits: seq<nat>, w: nat, carry: nat, diffsign: bool, x: nat, c2: nat)
    requires Laid(digits, w, carry, diffsign, x, c2) && |digits| > 0
    ensures AreDigits(digits) && |digits| == w
    ensures !diffsign ==> carry * Pow(10, w) + Val(digits) == c2 + x
    ensures diffsign && carry == 0 ==> 0 < Val(digits) && Pow(10, w) - Val(digits) == x - c2 && x > c2
    ensures diffsign && carry == 1 ==> Val(digits) == c2 - x && c2 >= x
  {
    hide Val, Pow;
    ValBound(digits);
    assert 0 * Pow(10, w) == 0 && 1 * Pow(10, w) == Pow(10, w);
  }

  method AllZero(buf: array<nat>, from: nat, to: nat) returns (zero: bool)
    requires from <= to <= buf.Length
    ensures zero <==> forall i :: from <= i < to ==> buf[i] == 0
  {
    var i := from;
    while i < to
      invariant from <= i <= to && forall j :: from <= j < i ==> buf[j] == 0
    {
      if buf[i] != 0 { return false; }
      i := i + 1;
    }
    return true;
  }

  /** After a subtraction that did not borrow: strips zeros when the whole coefficient area is zero, and
      says whether the result is exactly zero. */
  method StripDifference(f: Format, acc: array<nat>, lsd: nat) returns (umsd: nat, zero: bool)
    requires f.Valid() && 3 + Width(f) <= lsd < acc.Length && AreDigits(acc[4..lsd + 1])
    requires forall i :: 4 <= i < 4 + Prefix(f) ==> acc[i] == 0
    ensures 4 <= umsd <= lsd && AreDigits(acc[umsd..lsd + 1]) && Val(acc[umsd..lsd + 1]) == Val(acc[4..lsd + 1])
    ensures zero <==> Val(acc[4..lsd + 1]) == 0
  {
    hide Val;
    var coff := 4 + Prefix(f);
    umsd, zero := 4, false;
    ghost var s := acc[4..lsd + 1];
    assert forall i :: 4 <= i <= lsd ==> acc[i] == s[i - 4];
    var clear := AllZero(acc, coff, coff + f.p);
    if clear {
      umsd := coff + f.p - 1;
      SkipZerosAt(acc[..], 4, umsd, lsd + 1);
      if lsd > umsd {
        SkipZerosAt(acc[..], umsd, umsd + 1, lsd + 1);
        umsd := umsd + 1;
        umsd := SkipLeadingZeros(acc, umsd, lsd);
      }
      zero := acc[umsd] == 0;
      ZeroWhenTrimmed(acc[umsd..lsd + 1]);
    } else {
      NotZero(s);
    }
  }

  lemma ZeroWhenTrimmed(s: seq<nat>)
    requires |s| > 0 && AreDigits(s) && (|s| == 1 || s[0] != 0)
    ensures s[0] == 0 <==> Val(s) == 0
  {
    hide Val;
    ValZeros(s);
    if |s| == 1 && s[0] == 0 { assert forall i :: 0 <= i < |s| ==> s[i] == 0; }
  }

  lemma NotZero(s: seq<nat>)
    requires exists i :: 0 <= i < |s| && s[i] != 0
    ensures Val(s) != 0
  {
    hide Val;
    ValZeros(s);
  }

  /** The number to be rounded: its first digit and its sign. */
  method SettleDigits(f: Format, acc: array<nat>, lsd: nat, carry: nat, diffsign: bool, lneg: bool, rneg: bool,
                      round: Mode,
                      ghost c': nat, ghost x: nat, ghost c2: nat)
    returns (umsd: nat, neg: bool)
    requires f.Valid() && 3 + Width(f) <= lsd < acc.Length && c' <= 1 && carry == Pattern(c')
    requires Laid(acc[4..lsd + 1], lsd - 3, c', diffsign, x, c2) && (lneg != rneg) == diffsign
    requires !diffsign && Prefix(f) > 0 ==> c' == 0
    requires diffsign && c' == 1 ==> forall i :: 4 <= i < 4 + Prefix(f) ==> acc[i] == 0
    modifies acc
    ensures 3 <= umsd <= lsd && AreDigits(acc[umsd..lsd + 1])
    ensures Val(acc[umsd..lsd + 1]) == if !diffsign then c2 + x else if x > c2 then x - c2 else c2 - x
    ensures neg == if !diffsign then lneg else if x > c2 then lneg else if c2 > x then rneg else round == Floor
  {
    hide Val, Pow, Laid, Width, Prefix;
    ghost var s := acc[4..lsd + 1];
    WidthInWords(f);
    LaidRange(s, lsd - 3, c', diffsign, x, c2);
    umsd := 4;
    if diffsign {
      if carry == 0 {
        neg := lneg;
        Negate(acc, umsd, lsd);
      } else {
        neg := rneg;
        var zero;
        umsd, zero := StripDifference(f, acc, lsd);
        if zero { neg := round == Floor; }
      }
    } else {
      neg := lneg;
      if carry != 0 && Prefix(f) == 0 {
        acc[3] := 1;
        umsd := 3;
        assert acc[umsd..lsd + 1] == [1] + s;
        ValPrepend(1, s);
      }
    }
  }

  /** What the prefix digits hold once the words are added. */
  lemma PrefixAfter(f: Format, digits: seq<nat>, n: nat, c': nat, diffsign: bool, c1: nat, c2: nat)
    requires f.Valid() && c1 < Pow(10, f.p) && c2 < Pow(10, f.p) && |digits| == Width(f) + n
    requires Laid(digits, Width(f) + n, c', diffsign, c1 * Pow(10, n), c2)
    ensures !diffsign && Prefix(f) > 0 ==> c' == 0
    ensures diffsign && c' == 1 ==> forall i :: 0 <= i < Prefix(f) ==> digits[i] == 0
  {
    hide Val, Pow, Laid, Width, Prefix;
    WidthInWords(f);
    LaidRange(digits, Width(f) + n, c', diffsign, c1 * Pow(10, n), c2);
    MulStrict(c1, Pow(10, f.p), Pow(10, n));
    PowAdd(10, f.p, n);
    PowMono(10, f.p, f.p + n);
    if diffsign && c' == 1 {
      MulMono(0, c1, Pow(10, n));
      LeadingZeros(digits, Prefix(f));
    }
    if !diffsign && Prefix(f) > 0 {
      PowMono(10, f.p + n, Width(f) + n);
      NoCarry(c', Pow(10, Width(f) + n), Val(digits));
    }
  }

  lemma NoCarry(c: nat, p: nat, v: nat)
    requires c * p + v < p
    ensures c == 0
  {
    if c > 0 { MulMono(1, c, p); }
  }

  lemma LeadingZeros(s: seq<nat>, z: nat)
    requires AreDigits(s) && z <= |s| && Val(s) < Pow(10, |s| - z)
    ensures forall i :: 0 <= i < z ==> s[i] == 0
  {
    hide Val, Pow;
    ValSplit(s, z);
    if Val(s[..z]) > 0 { MulMono(1, Val(s[..z]), Pow(10, |s| - z)); }
    ValZeros(s[..z]);
    assert forall i :: 0 <= i < z ==> s[i] == s[..z][i];
  }

  /** The slow path, l having the higher exponent (or the same one). */
  method SlowAdd(f: Format, l: Number, r: Number, ctx: DecContext) returns (df: Number)
    requires f.Valid() && Holds(f, l) && Holds(f, r) && r.exp <= l.exp
    modifies ctx`status
    ensures var o := SumOutcome(f, ctx.round, l.neg, l.coeff, l.exp, r.neg, r.coeff, r.exp);
      df == o.num && ctx.status == old(ctx.status) + o.raised
  {
    hide Val, Pow, RoundScaled, SumOutcome, Laid, Width, Prefix, AddendCoeff, AddendExp;
    var diffsign := l.neg != r.neg;
    if l.coeff == 0 {
      AddToZero(f, ctx.round, l.neg, l.exp, r.neg, r.coeff, r.exp);
      df := r;
      if diffsign && r.coeff == 0 {
        df := df.(neg := ctx.round == Floor);
      }
      return;
    }
    var acc, lsd, carry, e2, c' := LayOut(f, l.coeff, l.exp, r.coeff, r.exp, diffsign);
    ghost var n, c2 := l.exp - e2, AddendCoeff(f, l.exp, r.coeff, r.exp);
    ghost var digits := acc[4..lsd + 1];
    WidthInWords(f);
    AddendFits(f, l.exp, r.coeff, r.exp);
    PrefixAfter(f, digits, n, c', diffsign, l.coeff, c2);
    assert forall i :: 4 <= i <= lsd ==> acc[i] == digits[i - 4];
    var umsd, neg := SettleDigits(f, acc, lsd, carry, diffsign, l.neg, r.neg, ctx.round, c', l.coeff * Pow(10, n), c2);
    var num := new BcdNum(acc, umsd, lsd, neg, e2);
    SumAligned(f, ctx.round, l.neg, l.coeff, l.exp, r.neg, c2, e2, l.coeff * Pow(10, n));
    StandInHarmless(f, ctx.round, l.neg, l.coeff, l.exp, r.neg, r.coeff, r.exp);
    df := Finalize(f, num, ctx);
  }

  lemma AddendFits(f: Format, eh: int, c: nat, e: int)
    requires f.Valid() && c < Pow(10, f.p)
    ensures AddendCoeff(f, eh, c, e) < Pow(10, f.p)
  {
    SmallPowers();
    PowMono(10, 1, f.p);
    hide Pow;
  }

  /** A zero lhs of the higher exponent leaves the rhs as it is, but for the sign of an exact zero. */
  lemma AddToZero(f: Format, mode: Mode, n1: bool, e1: int, n2: bool, c2: nat, e2: int)
    requires f.Valid() && c2 < Pow(10, f.p) && f.etiny <= e2 <= f.etop && e2 <= e1
    ensures SumOutcome(f, mode, n1, 0, e1, n2, c2, e2)
      == Outcome(Finite(if n1 != n2 && c2 == 0 then mode == Floor else n2, c2, e2), {})
  {
    hide Pow, RoundScaled, SumOutcome;
    SumWithZero(f, mode, n1, e1, n2, c2, e2);
    HeldExactly(f, mode, if n1 != n2 && c2 == 0 then mode == Floor else n2, c2, e2);
  }

  /* ---- The fast path: equal exponents and signs, and no overflow of the top digit ---- */

  /** GETCOEFFTHOU: n declets in base 1000 and the leading digit above them. */
  function Thousand(c: nat, n: nat): (s: seq<nat>)
    ensures |s| == n + 1 && forall i :: 0 <= i < n ==> s[i] <= 999
    ensures Units(1000, s) == c && s[n] == c / Pow(1000, n)
  {
    if n == 0 then
      UnitsAppend(1000, [], c);
      assert [] + [c] == [c];
      [c]
    else
      var s := [c % 1000] + Thousand(c / 1000, n - 1);
      UnitsFirst(1000, s);
      ThousandTop(c, n);
      s
  }

  lemma ThousandTop(c: nat, n: nat)
    requires n > 0
    ensures c / 1000 / Pow(1000, n - 1) == c / Pow(1000, n)
  {
    var t := Pow(1000, n - 1);
    assert Pow(1000, n) == 1000 * t;
    hide Pow;
    NestedDivision(c, 1000, t);
  }

  /** ADDCOEFFTHOU: adds declet by declet, carrying to the left. */
  method AddCoeffThou(tac: array<nat>, d: seq<nat>)
    requires tac.Length == |d| > 0
    requires forall i :: 0 <= i < |d| - 1 ==> d[i] <= 999 && tac[i] <= 999
    modifies tac
    ensures Units(1000, tac[..]) == old(Units(1000, tac[..])) + Units(1000, d)
    ensures forall i :: 0 <= i < |d| - 1 ==> tac[i] <= 999
    ensures tac[|d| - 1] <= old(tac[|d| - 1]) + d[|d| - 1] + 1
  {
    hide Units, Pow;
    var n := |d| - 1;
    var i := 0;
    ghost var u := Units(1000, tac[..]);
    UnitsZeros(1000, d[..0]);
    while i < n
      invariant i <= n && Units(1000, tac[..]) == u + Units(1000, d[..i])
      invariant forall j :: 0 <= j < n ==> tac[j] <= if j == i then 1000 else 999
      invariant tac[n] <= old(tac[n]) + if i == n then 1 else 0
    {
      ghost var s := tac[..];
      UnitsAdd(1000, s, i, d[i]);
      UnitsNext(1000, d, i);
      tac[i] := tac[i] + d[i];
      ghost var t := tac[..];
      assert t == s[i := s[i] + d[i]];
      if tac[i] > 999 {
        CarryUnit(t, i);
        tac[i] := tac[i] - 1000;
        tac[i + 1] := tac[i + 1] + 1;
        assert tac[..] == t[i := t[i] - 1000][i + 1 := t[i + 1] + 1];
      }
      i := i + 1;
    }
    ghost var s := tac[..];
    UnitsAdd(1000, s, n, d[n]);
    UnitsNext(1000, d, n);
    assert d[..n + 1] == d;
    tac[n] := tac[n] + d[n];
    assert tac[..] == s[n := s[n] + d[n]];
  }

  lemma CarryUnit(t: seq<nat>, i: nat)
    requires i + 1 < |t| && t[i] >= 1000
    ensures Units(1000, t[i := t[i] - 1000][i + 1 := t[i + 1] + 1]) == Units(1000, t)
  {
    hide Units;
    var s := t[i := t[i] - 1000];
    UnitsUpdate(1000, t, i, t[i] - 1000);
    UnitsAdd(1000, s, i + 1, 1);
    assert Pow(1000, i + 1) == 1000 * Pow(1000, i);
  }

  /** The most significant digit of a coefficient. */
  function Msd(f: Format, c: nat): nat
    requires f.p > 0
  {
    c / Pow(10, f.p - 1)
  }

  /** DECTESTMSD: the leading digit of a finite number; an infinity or a NaN makes any sum negative. */
  function TestMsd(f: Format, x: Number): int
    requires f.p > 0
  {
    match x
    case Finite(_, c, _) => Msd(f, c)
    case Infinite(_) => -32
    case NaN(_) => -128
  }

  /** If the leading digits sum to no more than eight, the sum of the coefficients fits. */
  lemma NoOverflow(f: Format, x: nat, y: nat)
    requires f.Valid() && Msd(f, x) + Msd(f, y) <= 8
    ensures x + y < Pow(10, f.p)
  {
    TenIsEven(f.p);
    hide Pow;
    LeadingSum(x, y, Pow(10, f.p - 1));
  }

  lemma LeadingSum(x: nat, y: nat, t: nat)
    requires t > 0 && x / t + y / t <= 8
    ensures x + y < 10 * t
  {
    DivBounds(x, t);
    DivBounds(y, t);
    MulMono(x / t + y / t, 8, t);
    assert (x / t + y / t) * t == x / t * t + y / t * t;
  }

  /** Both coefficients in base 1000, added; every unit of the result is below 1000 and the last below 10. */
  method FastAdd(f: Format, l: Number, r: Number) returns (df: Number)
    requires f.Valid() && f.p % 3 == 1 && Holds(f, l) && Holds(f, r) && l.exp == r.exp && l.neg == r.neg
    requires Msd(f, l.coeff) + Msd(f, r.coeff) <= 8
    ensures df == Finite(l.neg, l.coeff + r.coeff, l.exp)
  {
    hide Units, Pow, Thousand, Msd;
    var declets := (f.p - 1) / 3;
    var s, d := Thousand(l.coeff, declets), Thousand(r.coeff, declets);
    ThousandsAreTens(declets);
    TopsAreMsds(f, l.coeff, r.coeff, declets);
    var tac := new nat[declets + 1](i requires 0 <= i < declets + 1 => s[i]);
    assert tac[..] == s;
    AddCoeffThou(tac, d);
    assert tac[declets] <= 9;
    df := Finite(l.neg, Units(1000, tac[..]), l.exp);
  }

  lemma TopsAreMsds(f: Format, x: nat, y: nat, n: nat)
    requires f.Valid() && f.p == 3 * n + 1 && Pow(1000, n) == Pow(10, 3 * n)
    ensures x / Pow(1000, n) == Msd(f, x) && y / Pow(1000, n) == Msd(f, y)
  {}

  /* ---- decFloatAdd ---- */

  /** Operands of which at least one is special. */
  method AddSpecial(f: Format, l: Number, r: Number, ctx: DecContext) returns (df: Number)
    requires f.p > 0 && TestMsd(f, l) + TestMsd(f, r) < 0
    requires l.Finite? ==> Msd(f, l.coeff) <= 9
    requires r.Finite? ==> Msd(f, r.coeff) <= 9
    modifies ctx`status
    ensures l.NaN? || r.NaN? ==> df == NaN(false) && ctx.status == old(ctx.status) + NaNRaises(l, r)
    ensures !l.NaN? && !r.NaN? && l.Infinite? && r.Infinite? && l.neg != r.neg ==>
      df == NaN(false) && ctx.status == old(ctx.status) + {InvalidOperation}
    ensures !l.NaN? && !r.NaN? && !(l.Infinite? && r.Infinite? && l.neg != r.neg) ==>
      df == Infinite(if l.Infinite? then l.neg else r.neg) && ctx.status == old(ctx.status)
  {
    hide Msd;
    var summ := TestMsd(f, l) + TestMsd(f, r);
    if summ < -64 {
      df := PropagateNaN(l, r, ctx);
    } else if summ == -64 && l.neg != r.neg {
      ctx.Raise({InvalidOperation});
      df := NaN(false);
    } else if l.Infinite? {
      df := Infinite(l.neg);
    } else {
      df := Infinite(r.neg);
    }
  }

  lemma MsdSmall(f: Format, c: nat)
    requires f.Valid() && c < Pow(10, f.p)
    ensures Msd(f, c) <= 9
  {
    TenIsEven(f.p);
    hide Pow;
    DivLt(c, Pow(10, f.p - 1), 10);
  }

  method FloatAdd(f: Format, l: Number, r: Number, ctx: DecContext) returns (df: Number)
    requires f.Valid() && f.p % 3 == 1 && IsNumber(f, l) && IsNumber(f, r)
    modifies ctx`status
    ensures l.Finite? && r.Finite? ==>
      var o := SumOutcome(f, ctx.round, l.neg, l.coeff, l.exp, r.neg, r.coeff, r.exp);
      df == o.num && ctx.status == old(ctx.status) + o.raised
    ensures l.NaN? || r.NaN? ==> df == NaN(false) && ctx.status == old(ctx.status) + NaNRaises(l, r)
    ensures l.Infinite? && r.Infinite? && l.neg != r.neg ==>
      df == NaN(false) && ctx.status == old(ctx.status) + {InvalidOperation}
    ensures !l.NaN? && !r.NaN? && (l.Infinite? || r.Infinite?) && !(l.Infinite? && r.Infinite? && l.neg != r.neg) ==>
      df == Infinite(if l.Infinite? then l.neg else r.neg) && ctx.status == old(ctx.status)
  {
    hide Pow, SumOutcome, Msd;
    if l.Finite? { MsdSmall(f, l.coeff); }
    if r.Finite? { MsdSmall(f, r.coeff); }
    var summ := TestMsd(f, l) + TestMsd(f, r);
    if summ <= 8 {
      if summ < 0 {
        df := AddSpecial(f, l, r, ctx);
        return;
      }
      if l.exp == r.exp && l.neg == r.neg {
        FastIsSum(f, ctx.round, l, r);
        df := FastAdd(f, l, r);
        return;
      }
    }
    if r.exp <= l.exp {
      df := SlowAdd(f, l, r, ctx);
    } else {
      SumCommutes(f, ctx.round, l.neg, l.coeff, l.exp, r.neg, r.coeff, r.exp);
      df := SlowAdd(f, r, l, ctx);
    }
  }

  /** The fast path and the slow path agree wherever the fast path is taken. */
  lemma FastIsSum(f: Format, mode: Mode, l: Number, r: Number)
    requires f.Valid() && Holds(f, l) && Holds(f, r) && l.exp == r.exp && l.neg == r.neg
    requires Msd(f, l.coeff) + Msd(f, r.coeff) <= 8
    ensures SumOutcome(f, mode, l.neg, l.coeff, l.exp, r.neg, r.coeff, r.exp)
      == Outcome(Finite(l.neg, l.coeff + r.coeff, l.exp), {})
  {
    hide Pow, SumOutcome, RoundScaled, Msd;
    SmallPowers();
    NoOverflow(f, l.coeff, r.coeff);
    SumAligned(f, mode, l.neg, l.coeff, l.exp, r.neg, r.coeff, r.exp, l.coeff);
    HeldExactly(f, mode, l.neg, l.coeff + r.coeff, l.exp);
  }
}
