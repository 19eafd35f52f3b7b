/** decFloatQuantize: a number rounded or padded to the exponent of another. */
module Quantizer {
  import opened Arith
  import opened Digits
  import opened Rounding
  import opened Context
  import opened Finalizer
  import opened ExactSum
  import opened IntegerDivision
  import opened Addition

  /* ---- Specification ---- */

  /** The number rounded to a multiple of 10^e, or Invalid if that takes more than p digits. */
  function QuantizeOutcome(f: Format, mode: Mode, x: Number, e: int): Outcome
    requires x.Finite?
  {
    if x.exp < e then
      var d := Pow(10, e - x.exp);
      Outcome(Finite(x.neg, Rounded(mode, x.neg, x.coeff, d), e), if x.coeff % d != 0 then {Inexact} else {})
    else if x.coeff * Pow(10, x.exp - e) < Pow(10, f.p) then
      Outcome(Finite(x.neg, x.coeff * Pow(10, x.exp - e), e), {})
    else
      Outcome(NaN(false), {InvalidOperation})
  }

  /* ---- Rounding away digits ---- */

  /** One more than a coefficient of p - drop digits still fits the window of p digits. */
  lemma RoundedFits(f: Format, mode: Mode, neg: bool, c: nat, drop: nat)
    requires f.Valid() && c < Pow(10, f.p) && drop > 0
    ensures Rounded(mode, neg, c, Pow(10, drop)) < Pow(10, f.p)
  {
    TenPart(f.p, drop);
    hide Pow;
    if drop >= f.p {
      PowMono(10, f.p, drop);
      DivModUnique(c, Pow(10, drop), 0, c);
    } else {
      DivLt(c, Pow(10, drop), Pow(10, f.p - drop));
      PowMono(10, f.p - drop, f.p);
    }
    SmallPowers();
    PowMono(10, 1, f.p);
  }

  lemma TenPart(p: nat, drop: nat)
    ensures drop <= p ==> Pow(10, p) == Pow(10, p - drop) * Pow(10, drop)
  {
    if drop <= p { PowAdd(10, p - drop, drop); }
  }

  /** The digits to be dropped, as one re-round digit, and what stays, at off..ulsd. */
  method CutDigits(f: Format, buf: array<nat>, off: nat, drop: nat) returns (reround: nat, ulsd: nat)
    requires f.Valid() && off >= 4 && off + f.p <= buf.Length && AreDigits(buf[off..off + f.p]) && buf[off - 1] == 0
    requires drop > 0
    modifies buf
    ensures off <= ulsd < off + f.p && AreDigits(buf[off..ulsd + 1])
    ensures ulsd == if drop < f.p then off + f.p - 1 - drop else off
    ensures Val(buf[off..ulsd + 1]) == old(Val(buf[off..off + f.p])) / Pow(10, drop)
    ensures Digest(reround, old(Val(buf[off..off + f.p])) % Pow(10, drop), Pow(10, drop))
    ensures forall i :: 0 <= i < off ==> buf[i] == old(buf[i])
  {
    hide Val, Pow, Digest;
    assert off + f.p - 1 + 1 == off + f.p;
    if drop < f.p {
      reround := CutInside(buf, off, off + f.p - 1, drop);
      ulsd := off + f.p - 1 - drop;
    } else {
      reround := CutLeft(buf, off, off + f.p - 1, drop);
      buf[off] := 0;
      ulsd := off;
      SingleZero(buf[..], off);
    }
  }

  /** Adds one to off..ulsd; all nines carry into the zero on the left. */
  method BumpWindow(buf: array<nat>, off: nat, ulsd: nat)
    requires 0 < off <= ulsd < buf.Length && AreDigits(buf[off..ulsd + 1]) && buf[off - 1] == 0
    modifies buf
    ensures AreDigits(buf[off - 1..ulsd + 1]) && Val(buf[off - 1..ulsd + 1]) == old(Val(buf[off..ulsd + 1])) + 1
    ensures forall i :: 0 <= i < off - 1 ==> buf[i] == old(buf[i])
  {
    hide Val, Pow;
    var carried := Increment(buf, off, ulsd);
    ghost var z := buf[off..ulsd + 1];
    if carried {
      buf[off - 1] := 1;
      assert buf[off..ulsd + 1] == z;
      ValZeros(z);
    }
    assert buf[off - 1..ulsd + 1] == [buf[off - 1]] + z;
    ValPrepend(buf[off - 1], z);
    assert 0 * Pow(10, |z|) == 0;
  }

  /** Cuts, sets Inexact and bumps: the rounded coefficient, with room for a carry, is at off-1..ulsd. */
  method RoundAt(f: Format, buf: array<nat>, off: nat, drop: nat, neg: bool, ctx: DecContext) returns (ulsd: nat)
    requires f.Valid() && off == 4 + f.p && off + f.p <= buf.Length && AreDigits(buf[off..off + f.p]) && drop > 0
    requires buf[off - 1] == 0
    modifies buf, ctx`status
    ensures off <= ulsd < off + f.p && ulsd == (if drop < f.p then off + f.p - 1 - drop else off)
    ensures AreDigits(buf[off - 1..ulsd + 1])
    ensures var c := old(Val(buf[off..off + f.p])); var d := Pow(10, drop);
      && Val(buf[off - 1..ulsd + 1]) == Rounded(ctx.round, neg, c, d)
      && ctx.status == old(ctx.status) + if c % d != 0 then {Inexact} else {}
    ensures forall i :: 0 <= i < off - 1 ==> buf[i] == old(buf[i])
  {
    hide Val, Pow, Digest, Rounded;
    ghost var c := Val(buf[off..off + f.p]);
    var reround;
    reround, ulsd := CutDigits(f, buf, off, drop);
    BumpRounds(ctx.round, neg, reround, c, Pow(10, drop));
    LastDigitOf(buf[off..ulsd + 1]);
    NonZeroDigest(reround, c, Pow(10, drop));
    PrefixZero(buf[..], off, ulsd);
    if reround != 0 {
      ctx.Raise({Inexact});
      if Bump(ctx.round, neg, reround, buf[ulsd]) {
        BumpWindow(buf, off, ulsd);
      }
    }
  }

  /** The rounding half of the operation: the p digits ending at ulsd are the rounded coefficient. */
  method RoundWindow(f: Format, buf: array<nat>, off: nat, drop: nat, neg: bool, ctx: DecContext) returns (ulsd: nat)
    requires f.Valid() && off == 4 + f.p && off + f.p <= buf.Length && AreDigits(buf[off..off + f.p]) && drop > 0
    modifies buf, ctx`status
    ensures f.p <= ulsd + 1 <= buf.Length && AreDigits(buf[ulsd + 1 - f.p..ulsd + 1])
    ensures var c := old(Val(buf[off..off + f.p])); var d := Pow(10, drop);
      && Val(buf[ulsd + 1 - f.p..ulsd + 1]) == Rounded(ctx.round, neg, c, d)
      && ctx.status == old(ctx.status) + if c % d != 0 then {Inexact} else {}
  {
    hide Val, Pow, Rounded;
    ghost var before := buf[..];
    FillZeros(buf, off - 4, off);
    SameSlice(buf[..], before, off, off + f.p);
    ulsd := RoundAt(f, buf, off, drop, neg, ctx);
    ghost var all := buf[..];
    var from := ulsd + 1 - f.p;
    if from < off - 4 {
      FillZeros(buf, from, off - 4);
      SameSlice(buf[..], all, off - 1, ulsd + 1);
    }
    WindowValue(buf[..], from, off, ulsd, all[off - 1..ulsd + 1]);
  }

  lemma NonZeroDigest(reround: nat, c: nat, d: nat)
    requires d > 0 && Digest(reround, c % d, d)
    ensures reround != 0 <==> c % d != 0
  {}

  /** A zero to the left changes nothing. */
  lemma PrefixZero(s: seq<nat>, off: nat, ulsd: nat)
    requires 0 < off <= ulsd < |s|
    ensures s[off - 1] == 0 ==> Val(s[off - 1..ulsd + 1]) == Val(s[off..ulsd + 1])
    ensures s[off - 1] == 0 && AreDigits(s[off..ulsd + 1]) ==> AreDigits(s[off - 1..ulsd + 1])
  {
    hide Val, Pow;
    var w := s[off - 1..ulsd + 1];
    assert w[1..] == s[off..ulsd + 1];
    if s[off - 1] == 0 {
      ValSkipZero(w);
      assert w == [0] + w[1..];
    }
  }

  lemma WindowValue(s: seq<nat>, from: nat, off: nat, ulsd: nat, w: seq<nat>)
    requires 0 < off <= ulsd < |s| && from <= off - 1 && s[off - 1..ulsd + 1] == w && AreDigits(w)
    requires forall i :: from <= i < off - 1 ==> s[i] == 0
    ensures AreDigits(s[from..ulsd + 1]) && Val(s[from..ulsd + 1]) == Val(w)
  {
    hide Val;
    var t := s[from..ulsd + 1];
    SubSlice(s, from, ulsd + 1, off - 1 - from, ulsd + 1 - from);
    ZerosInFront(t, off - 1 - from);
  }

  /* ---- Padding ---- */

  /** Zeros to the right by fours while the digits they push out, at the left, are checked: those must
      be zeros too. The last word may be checked in part. */
  method PadWindow(f: Format, buf: array<nat>, off: nat, pad: nat) returns (fits: bool)
    requires f.Valid() && off + 2 * f.p + 3 <= buf.Length && 0 < pad < f.p && AreDigits(buf[off..off + f.p])
    modifies buf
    ensures fits <==> forall i :: off <= i < off + pad ==> old(buf[i]) == 0
    ensures fits ==> forall i :: off + f.p <= i < off + f.p + pad ==> buf[i] == 0
    ensures forall i :: 0 <= i < off + f.p ==> buf[i] == old(buf[i])
  {
    ghost var s := buf[..];
    var i: nat := 0;
    while true
      invariant i % 4 == 0 && i < pad
      invariant forall j :: off <= j < off + i ==> s[j] == 0
      invariant forall j :: 0 <= j < buf.Length && j < off + f.p ==> buf[j] == s[j]
      invariant forall j :: off + f.p <= j < off + f.p + i ==> buf[j] == 0
      decreases pad - i
    {
      FillZeros(buf, off + f.p + i, off + f.p + i + 4);
      if !FourAre(buf, off + i, 0) {
        fits := CheckWord(buf, off, i, pad, f.p);
        return;
      }
      if i + 4 >= pad { break; }
      i := i + 4;
    }
    return true;
  }

  /** A word that is not all zeros: fatal if all of it is pushed out, else only its first digits count. */
  method CheckWord(buf: array<nat>, off: nat, i: nat, pad: nat, p: nat) returns (fits: bool)
    requires i < pad < p && off + i + 4 <= buf.Length && off + p <= buf.Length && !FourAre(buf, off + i, 0)
    ensures fits <==> forall j :: off + i <= j < off + pad ==> buf[j] == 0
    ensures fits ==> i + 4 > pad
  {
    if i + 4 <= pad {
      NonZeroInWord(buf[..], off + i);
      fits := false;
    } else {
      fits := AllZero(buf, off + i, off + pad);
    }
  }

  lemma NonZeroInWord(s: seq<nat>, i: nat)
    requires i + 4 <= |s| && !(s[i] == 0 && s[i + 1] == 0 && s[i + 2] == 0 && s[i + 3] == 0)
    ensures exists j :: i <= j < i + 4 && s[j] != 0
  {}

  /** Zeros pushed in at the right multiply; what is pushed out at the left must be zeros. */
  lemma Padded(f: Format, s: seq<nat>, off: nat, pad: nat)
    requires f.Valid() && off + f.p + pad <= |s| && pad < f.p && AreDigits(s[off..off + f.p])
    requires forall i :: off <= i < off + pad ==> s[i] == 0
    requires forall i :: off + f.p <= i < off + f.p + pad ==> s[i] == 0
    ensures AreDigits(s[off + pad..off + f.p + pad])
    ensures Val(s[off + pad..off + f.p + pad]) == Val(s[off..off + f.p]) * Pow(10, pad)
  {
    hide Val, Pow;
    var c, t := s[off..off + f.p], s[off..off + f.p + pad];
    assert t == c + Zeros(pad);
    ValPadded(pad, c);
    assert t[pad..] == s[off + pad..off + f.p + pad];
    ValSplit(t, pad);
    assert forall i :: 0 <= i < pad ==> t[..pad][i] == s[off + i];
    ValZeros(t[..pad]);
    assert 0 * Pow(10, f.p) == 0;
  }

  lemma PadFits(f: Format, s: seq<nat>, pad: nat)
    requires |s| == f.p && AreDigits(s) && pad <= f.p
    ensures (forall i :: 0 <= i < pad ==> s[i] == 0) <==> Val(s) * Pow(10, pad) < Pow(10, f.p)
  {
    hide Val, Pow;
    PowAdd(10, f.p - pad, pad);
    MulCancel(Val(s), Pow(10, f.p - pad), Pow(10, pad));
    if Val(s) < Pow(10, f.p - pad) {
      MulStrict(Val(s), Pow(10, f.p - pad), Pow(10, pad));
      LeadingZeros(s, pad);
    }
    if forall i :: 0 <= i < pad ==> s[i] == 0 {
      ValSplit(s, pad);
      ValZeros(s[..pad]);
      ValBound(s[pad..]);
      assert 0 * Pow(10, f.p - pad) == 0;
      MulStrict(Val(s), Pow(10, f.p - pad), Pow(10, pad));
    }
  }

  lemma NoRoom(f: Format, c: nat, pad: nat)
    requires f.Valid() && pad >= f.p
    ensures c * Pow(10, pad) < Pow(10, f.p) <==> c == 0
  {
    hide Pow;
    PowMono(10, f.p, pad);
    if c > 0 { MulMono(1, c, Pow(10, pad)); }
    assert 0 * Pow(10, pad) == 0;
  }

  /** Padding to the right; Invalid if the coefficient would be too long. */
  method PadTo(f: Format, x: Number, e: int, buf: array<nat>, off: nat, ctx: DecContext) returns (df: Number)
    requires f.Valid() && Holds(f, x) && x.exp > e && off == 4 + f.p && buf.Length == 4 + 3 * f.p + 3
    requires AreDigits(buf[off..off + f.p]) && Val(buf[off..off + f.p]) == x.coeff
    modifies buf, ctx`status
    ensures var o := QuantizeOutcome(f, ctx.round, x, e);
      df == o.num && ctx.status == old(ctx.status) + o.raised
  {
    hide Val, Pow;
    var pad := x.exp - e;
    ghost var coeff := buf[off..off + f.p];
    var ulsd;
    if pad > f.p - 1 {
      NoRoom(f, x.coeff, pad);
      var zero := AllZero(buf, off, off + f.p);
      AllZeroValue(buf[..], off, f.p);
      if !zero {
        ctx.Raise({InvalidOperation});
        return NaN(false);
      }
      assert 0 * Pow(10, pad) == 0;
      ulsd := off + f.p - 1;
    } else {
      PadFits(f, coeff, pad);
      assert forall i :: 0 <= i < f.p ==> coeff[i] == buf[off + i];
      FirstZeros(buf[..], off, coeff, pad);
      var fits := PadWindow(f, buf, off, pad);
      if !fits {
        ctx.Raise({InvalidOperation});
        return NaN(false);
      }
      assert buf[off..off + f.p] == coeff;
      Padded(f, buf[..], off, pad);
      ulsd := off + f.p + pad - 1;
    }
    df := Finite(x.neg, Val(buf[ulsd + 1 - f.p..ulsd + 1]), e);
  }

  lemma AllZeroValue(s: seq<nat>, off: nat, n: nat)
    requires off + n <= |s|
    ensures (forall i :: off <= i < off + n ==> s[i] == 0) <==> Val(s[off..off + n]) == 0
  {
    hide Val;
    var t := s[off..off + n];
    ValZeros(t);
    assert forall i :: off <= i < off + n ==> s[i] == t[i - off];
    if forall i :: off <= i < off + n ==> s[i] == 0 { assert forall i :: 0 <= i < n ==> t[i] == 0; }
  }

  lemma FirstZeros(s: seq<nat>, off: nat, t: seq<nat>, pad: nat)
    requires off + |t| <= |s| && pad <= |t| && t == s[off..off + |t|]
    ensures (forall i :: off <= i < off + pad ==> s[i] == 0) <==> (forall i :: 0 <= i < pad ==> t[i] == 0)
  {
    assert forall i :: off <= i < off + pad ==> s[i] == t[i - off];
    assert forall i :: 0 <= i < pad ==> t[i] == s[off + i];
  }

  /** decFloatQuantize. */
  method FloatQuantize(f: Format, l: Number, r: Number, ctx: DecContext) returns (df: Number)
    requires f.Valid() && IsNumber(f, l) && IsNumber(f, r)
    modifies ctx`status
    ensures l.Finite? && r.Finite? ==>
      var o := QuantizeOutcome(f, ctx.round, l, r.exp);
      df == o.num && ctx.status == old(ctx.status) + o.raised
    ensures l.NaN? || r.NaN? ==> df == NaN(false) && ctx.status == old(ctx.status) + NaNRaises(l, r)
    ensures !l.NaN? && !r.NaN? && l.Infinite? != r.Infinite? ==>
      df == NaN(false) && ctx.status == old(ctx.status) + {InvalidOperation}
    ensures l.Infinite? && r.Infinite? ==> df == l && ctx.status == old(ctx.status)
  {
    hide Val, Pow, Rounded;
    if !l.Finite? || !r.Finite? {
      if l.NaN? || r.NaN? {
        df := PropagateNaN(l, r, ctx);
      } else if l.Infinite? != r.Infinite? {
        ctx.Raise({InvalidOperation});
        df := NaN(false);
      } else {
        df := Infinite(l.neg);
      }
      return;
    }
    var drop := r.exp - l.exp;
    if drop == 0 {
      SmallPowers();
      return l;
    }
    var off := 4 + f.p;
    var buf := new nat[4 + 3 * f.p + 3];
    GetCoeff(buf, off, l.coeff, f.p);
    if drop > 0 {
      var ulsd := RoundWindow(f, buf, off, drop, l.neg, ctx);
      df := Finite(l.neg, Val(buf[ulsd + 1 - f.p..ulsd + 1]), r.exp);
    } else {
      df := PadTo(f, l, r.exp, buf, off, ctx);
    }
  }

  /* ---- What the result is ---- */

  /** A finite result is held, has the exponent asked for, and is idempotent: quantizing it again
      changes nothing and raises nothing. */
  lemma QuantizeIsIdempotent(f: Format, mode: Mode, mode': Mode, x: Number, e: int)
    requires f.Valid() && Holds(f, x) && f.etiny <= e <= f.etop
    ensures var y := QuantizeOutcome(f, mode, x, e).num;
      y.Finite? ==> Holds(f, y) && y.exp == e && QuantizeOutcome(f, mode', y, e) == Outcome(y, {})
  {
    SmallPowers();
    hide Pow, Rounded;
    if x.exp < e {
      RoundedFits(f, mode, x.neg, x.coeff, e - x.exp);
    }
    var y := QuantizeOutcome(f, mode, x, e).num;
    if y.Finite? { assert y.coeff * 1 == y.coeff; }
  }

  /** Is x above every number the format holds at exponent e? (10^m is any quantum fine enough for both.) */
  ghost predicate AboveAll(f: Format, x: Number, e: int, m: int)
    requires x.Finite? && m <= e && m <= x.exp
  {
    forall c: nat :: c < Pow(10, f.p) ==> Aligned(c, e, m) < Aligned(x.coeff, x.exp, m)
  }

  /** Has a number the format holds at exponent e the value of x? */
  ghost predicate ValueAt(f: Format, x: Number, e: int, m: int)
    requires x.Finite? && m <= e && m <= x.exp
  {
    exists c: nat :: c < Pow(10, f.p) && Aligned(c, e, m) == Aligned(x.coeff, x.exp, m)
  }

  /** Invalid is reported precisely when the number exceeds all that the format holds at that exponent;
      when no digits are to be rounded away, precisely when nothing held at that exponent equals it. */
  lemma InvalidIffOutOfReach(f: Format, mode: Mode, x: Number, e: int, m: int)
    requires f.Valid() && Holds(f, x) && m <= e && m <= x.exp
    ensures var o := QuantizeOutcome(f, mode, x, e);
      && (InvalidOperation in o.raised <==> AboveAll(f, x, e, m))
      && (InvalidOperation in o.raised <==> e < x.exp && !ValueAt(f, x, e, m))
      && (InvalidOperation in o.raised <==> !o.num.Finite?)
  {
    hide Pow, Rounded;
    SmallPowers();
    var top := Pow(10, f.p) - 1;
    if x.exp < e {
      PowMono(10, x.exp - m, e - m);
      MulMono(Pow(10, x.exp - m), Pow(10, e - m), x.coeff);
      MulMono(x.coeff, top, Pow(10, e - m));
      assert !AboveAll(f, x, e, m) by { assert Aligned(top, e, m) >= Aligned(x.coeff, x.exp, m); }
    } else {
      var v := x.coeff * Pow(10, x.exp - e);
      AlignedDown(x.coeff, x.exp, e, m);
      if v < Pow(10, f.p) {
        assert Aligned(v, e, m) == Aligned(x.coeff, x.exp, m);
      } else {
        forall c: nat | c < Pow(10, f.p) ensures Aligned(c, e, m) < Aligned(x.coeff, x.exp, m) {
          MulStrict(c, v, Pow(10, e - m));
        }
      }
    }
  }

  /* ---- Which neighbour is chosen ---- */

  function WithSign(neg: bool, m: int): int { if neg then -m else m }

  /** w, which is q * d but for its sign, is the multiple of d that the mode asks for in place of v; t is any
      other multiple. 05UP takes the neighbour toward zero unless its last digit is 0 or 5. */
  ghost predicate Chosen(mode: Mode, v: int, w: int, q: nat, d: nat, t: int) {
    match mode
    case Ceiling => v <= w && (v <= t ==> w <= t)
    case Floor => w <= v && (t <= v ==> t <= w)
    case Down => Abs(w) <= Abs(v) && (Abs(t) <= Abs(v) ==> Abs(t) <= Abs(w))
    case Up => Abs(v) <= Abs(w) && (Abs(v) <= Abs(t) ==> Abs(w) <= Abs(t))
    case HalfUp => Abs(w - v) <= Abs(t - v) && (t != w && Abs(w - v) == Abs(t - v) ==> Abs(t) < Abs(w))
    case HalfDown => Abs(w - v) <= Abs(t - v) && (t != w && Abs(w - v) == Abs(t - v) ==> Abs(w) < Abs(t))
    case HalfEven => Abs(w - v) <= Abs(t - v) && (t != w && Abs(w - v) == Abs(t - v) ==> q % 2 == 0)
    case ZeroFiveUp => Abs(w - v) < d && (w != v ==> q % 5 != 0) && (Abs(v) < Abs(w) ==> q % 5 == 1)
  }

  /** The multiples of d below and above a magnitude c, and every other one, n * d. */
  lemma Neighbours(c: nat, d: nat, n: int)
    requires d > 0
    ensures var q, r := c / d, c % d;
      && q * d == c - r && (q + 1) * d == c - r + d && 0 <= r < d && q >= 0
      && (n <= q ==> n * d <= c - r) && (n > q ==> n * d >= c - r + d)
      && (n <= -q ==> n * d <= r - c) && (n > -q ==> n * d >= r - c + d)
      && (n <= -q - 1 ==> n * d <= r - c - d) && (n > -q - 1 ==> n * d >= r - c)
  {
    DivBounds(c, d);
    QuotientNat(c, d);
    var q := c / d;
    OneMore(q, d);
    assert -q * d == -(q * d) && (-q - 1) * d == -(q * d) - d && (-q + 1) * d == -(q * d) + d;
    if n <= q { MulMono(n, q, d); } else { MulMono(q + 1, n, d); }
    if n <= -q { MulMono(n, -q, d); } else { MulMono(-q + 1, n, d); }
    if n <= -q - 1 { MulMono(n, -q - 1, d); } else { MulMono(-q, n, d); }
  }

  lemma RoundedIsChosen(mode: Mode, neg: bool, c: nat, d: nat, n: int)
    requires d > 0
    ensures var q := Rounded(mode, neg, c, d);
      Chosen(mode, WithSign(neg, c), WithSign(neg, q * d), q, d, n * d)
  {
    Neighbours(c, d, n);
    var q, r := c / d, c % d;
    assert Rounded(mode, neg, c, d) == if r != 0 && Away(mode, neg, q, r, d) then q + 1 else q;
    hide Rounded;
    NothingNearer(mode, neg, q, r, c, d, n * d);
  }

  lemma NothingNearer(mode: Mode, neg: bool, q: nat, r: nat, c: nat, d: nat, t: int)
    requires r < d && q * d == c - r && (q + 1) * d == c - r + d
    requires (t <= c - r || t >= c - r + d) && (t <= r - c || t >= r - c + d) && (t <= r - c - d || t >= r - c)
    ensures var q' := if r != 0 && Away(mode, neg, q, r, d) then q + 1 else q;
      Chosen(mode, WithSign(neg, c), WithSign(neg, q' * d), q', d, t)
  {
    var up := r != 0 && Away(mode, neg, q, r, d);
    var m := if up then c - r + d else c - r;
    assert (if up then q + 1 else q) * d == m;
    var v, w := WithSign(neg, c), WithSign(neg, m);
    if mode == Ceiling || mode == Floor || mode == Down || mode == Up {
      Directed(mode, neg, c, r, d, if up then q + 1 else q, m, t);
    } else if mode == ZeroFiveUp {
      hide *;
      Rerounded(neg, c, r, d, q, t);
    } else {
      NearestHalf(mode, neg, c, r, d, q, t);
    }
  }

  lemma Directed(mode: Mode, neg: bool, c: nat, r: nat, d: nat, q: nat, m: nat, t: int)
    requires mode == Ceiling || mode == Floor || mode == Down || mode == Up
    requires r < d && r <= c && m == if r != 0 && Away(mode, neg, 0, r, d) then c - r + d else c - r
    requires (t <= c - r || t >= c - r + d) && (t <= r - c || t >= r - c + d) && (t <= r - c - d || t >= r - c)
    ensures Chosen(mode, WithSign(neg, c), WithSign(neg, m), q, d, t)
  {}

  lemma NearestHalf(mode: Mode, neg: bool, c: nat, r: nat, d: nat, q: nat, t: int)
    requires mode == HalfUp || mode == HalfDown || mode == HalfEven
    requires r < d && r <= c
    requires (t <= c - r || t >= c - r + d) && (t <= r - c || t >= r - c + d) && (t <= r - c - d || t >= r - c)
    ensures var up := r != 0 && Away(mode, neg, q, r, d);
      Chosen(mode, WithSign(neg, c), WithSign(neg, if up then c - r + d else c - r), if up then q + 1 else q, d, t)
  {}

  lemma Rerounded(neg: bool, c: nat, r: nat, d: nat, q: nat, t: int)
    requires r < d && r <= c
    ensures var up := r != 0 && Away(ZeroFiveUp, neg, q, r, d);
      Chosen(ZeroFiveUp, WithSign(neg, c), WithSign(neg, if up then c - r + d else c - r),
             if up then q + 1 else q, d, t)
  {}

  /** Rounding away digits keeps the sign and, of all multiples of the new quantum, chooses the one that the
      mode asks for: the least above, the greatest below, the nearest. */
  lemma QuantizeChooses(f: Format, mode: Mode, x: Number, e: int, n: int)
    requires x.Finite? && x.exp < e
    ensures var y, d := QuantizeOutcome(f, mode, x, e).num, Pow(10, e - x.exp);
      && y.Finite? && y.neg == x.neg && y.exp == e
      && Chosen(mode, WithSign(x.neg, x.coeff), WithSign(y.neg, y.coeff * d), y.coeff, d, n * d)
  {
    hide Pow, Chosen, WithSign;
    RoundedIsChosen(mode, x.neg, x.coeff, Pow(10, e - x.exp), n);
  }

  /** Sign and exponent are as asked for; Inexact is raised precisely when the value changed, and padding never
      changes it. */
  lemma QuantizeInexactIffChanged(f: Format, mode: Mode, x: Number, e: int, m: int)
    requires f.Valid() && Holds(f, x) && m <= e && m <= x.exp
    ensures var o := QuantizeOutcome(f, mode, x, e);
      o.num.Finite? ==>
        && o.num.neg == x.neg && o.num.exp == e && o.raised <= {Inexact} && (e <= x.exp ==> o.raised == {})
        && (Inexact in o.raised <==> Aligned(o.num.coeff, e, m) != Aligned(x.coeff, x.exp, m))
  {
    hide Pow;
    var o := QuantizeOutcome(f, mode, x, e);
    if o.num.Finite? {
      if x.exp < e {
        var d := Pow(10, e - x.exp);
        AlignedDown(o.num.coeff, e, x.exp, m);
        AlignedSelf(x.coeff, x.exp);
        AlignedDown(x.coeff, x.exp, x.exp, m);
        DivBounds(x.coeff, d);
        OneMore(x.coeff / d, d);
        MulCancel(o.num.coeff * d, x.coeff, Pow(10, x.exp - m));
      } else {
        AlignedDown(x.coeff, x.exp, e, m);
        AlignedSelf(o.num.coeff, e);
      }
    }
  }
}
