/** decFloatAdd on the words of two finite encodings: the fast path in base 1000, and the slow path. */
module FastPath {
  import opened Arith
  import opened Digits
  import opened Rounding
  import opened Context
  import opened ExactSum
  import opened Addition
  import opened Canonicalize
  import opened Encoding
  import opened Interchange
  import opened Widening

  /** GETCOEFFTHOU: the declets as units of base 1000, and the leading digit above them. */
  method GetCoeffThou(sh: Shape, df: array<nat>, msd: nat) returns (tac: array<nat>)
    requires sh.Valid() && IsEncoding(sh, df[..])
    ensures fresh(tac) && tac.Length == sh.declets + 1 && tac[sh.declets] == msd
    ensures forall i :: 0 <= i < sh.declets ==> tac[i] <= 999
    ensures Units(1000, tac[..]) == Above(msd, Pow(1000, sh.declets), ContValue(Whole(df[..]), sh.declets))
  {
    hide Whole, Pow, ContValue, Units, AtBit, DecletAt, FromDeclet, Above;
    ghost var v := Whole(df[..]);
    tac := new nat[sh.declets + 1](_ => 0);
    var inword: nat, uoff: nat := df.Length - 1, 0;
    var encode := df[inword];
    var k: nat := 0;
    StartDeclets(df[..], v, encode);
    NoUnits(v, tac[..0]);
    while k < sh.declets
      invariant k <= sh.declets && Whole(df[..]) == v && AtBit(df[..], inword, uoff, encode, k)
      invariant Units(1000, tac[..k]) == ContValue(v, k) && forall i :: 0 <= i < k ==> tac[i] <= 999
    {
      var dpd;
      dpd, inword, uoff, encode := ReadDeclet(df, inword, uoff, encode, k);
      ghost var s := tac[..k];
      tac[k] := FromDeclet(dpd);
      assert tac[..k + 1] == s + [tac[k]];
      UnitsAppend(1000, s, tac[k]);
      ContNext(v, k);
      k := k + 1;
    }
    ghost var s := tac[..k];
    tac[k] := msd;
    assert tac[..] == s + [msd];
    UnitsAppend(1000, s, msd);
    AboveIs(msd, Pow(1000, sh.declets), ContValue(v, sh.declets));
  }

  lemma NoUnits(v: nat, s: seq<nat>)
    requires s == []
    ensures Units(1000, s) == ContValue(v, 0)
  {}

  /** The digit of a number held in reduced units. */
  lemma UnitDigit(s: seq<nat>, k: nat)
    requires k < |s| && AreUnits(1000, s)
    ensures DigitAt(1000, Units(1000, s), k) == s[k]
  {
    hide Units, Pow;
    assert s == s[..k] + s[k..] && s[k..][1..] == s[k + 1..];
    UnitsConcat(1000, s[..k], s[k..]);
    UnitsBound(1000, s[..k]);
    UnitsFirst(1000, s[k..]);
    DivModUnique(Units(1000, s), Pow(1000, k), Units(1000, s[k..]), Units(1000, s[..k]));
    DivModUnique(Units(1000, s[k..]), 1000, Units(1000, s[k + 1..]), s[k]);
  }

  /** The sign and exponent continuation of either operand, with a new combination field. */
  method RebuiltTop(sh: Shape, dfl: array<nat>, bexp: nat, msd: nat, ghost neg: bool, ghost c: nat) returns (top: nat)
    requires sh.Valid() && IsEncoding(sh, dfl[..]) && HeaderOf(Decode(sh, Whole(dfl[..])), neg, BiasedExp(bexp))
    requires bexp < 3 * Pow(2, sh.econl) && msd <= 9 && msd == c / Pow(1000, sh.declets)
    ensures top == TopOf(sh, Num(neg, bexp, c)) < 64 * Pow(2, sh.econl)
  {
    hide Whole, Pow, Above, CombFrom, CombExp, ContValue;
    ghost var e, q := Pow(2, sh.econl), Pow(2, 26 - sh.econl);
    TopWord(sh, dfl[..]);
    FieldsOfWord(dfl[0], e, q);
    var comb := dfl[0] / 0x400_0000;
    var econ := dfl[0] % 0x400_0000 / Pow(2, 26 - sh.econl);
    AboveParts(CombExp(comb % 32), e, econ, 3);
    AboveSplit(bexp, e, 3);
    SignOfComb(neg, CombFrom(bexp / e, msd));
    AboveParts(SignBit(neg) + CombFrom(bexp / e, msd), e, econ, 64);
    SixBits(dfl[0]);
    SignAndComb(comb);
    top := Above(comb / 32 * 32 + CombFrom(bexp / Pow(2, sh.econl), msd), Pow(2, sh.econl), econ);
  }

  /** The declets, from the reduced units of base 1000. */
  method PlaceThousands(sh: Shape, df: array<nat>, tac: array<nat>, ghost top: nat)
    requires sh.Valid() && IsEncoding(sh, df[..]) && Whole(df[..]) == Above(top, Pow(1024, sh.declets), 0)
    requires tac.Length == sh.declets + 1 && AreUnits(1000, tac[..]) && df != tac
    modifies df
    ensures IsEncoding(sh, df[..])
    ensures Whole(df[..]) == Above(top, Pow(1024, sh.declets), PackCont(Units(1000, tac[..]), sh.declets))
  {
    hide Whole, Pow, Above, Units, PackCont, AtBit, ToDeclet, DigitAt;
    ghost var c := Units(1000, tac[..]);
    var inword: nat, uoff: nat := df.Length - 1, 0;
    var encode := df[inword];
    var k: nat := 0;
    StartDeclets(df[..], 0, encode);
    NothingPacked(c);
    while k < sh.declets
      invariant k <= sh.declets && df.Length == sh.words && tac[..] == old(tac[..])
      invariant AtBit(df[..], inword, uoff, encode, k)
      invariant Whole(df[..]) == Above(top, Pow(1024, sh.declets), PackCont(c, k))
    {
      UnitDigit(tac[..], k);
      var dpd := ToDeclet(tac[k]);
      inword, uoff, encode := PlaceDeclet(df, inword, uoff, encode, dpd, k, top, c, sh.declets);
      k := k + 1;
    }
    WordsOf(df[..], inword, uoff, encode, k);
  }

  /** The fast path: the sum of the coefficients, encoded with the sign and exponent of either operand. */
  method FastAddWords(sh: Shape, dfl: array<nat>, dfr: array<nat>, bexp: nat, msdl: nat, msdr: nat, ghost neg: bool)
    returns (df: array<nat>)
    requires sh.Valid() && IsEncoding(sh, dfl[..]) && IsEncoding(sh, dfr[..]) && bexp < 3 * Pow(2, sh.econl)
    requires msdl + msdr <= 8
    requires HeaderOf(Decode(sh, Whole(dfl[..])), neg, BiasedExp(bexp))
    requires HeaderOf(Decode(sh, Whole(dfr[..])), neg, BiasedExp(bexp))
    requires ContOf(Decode(sh, Whole(dfl[..]))) ==
      Above(msdl, Pow(1000, sh.declets), ContValue(Whole(dfl[..]), sh.declets))
    requires ContOf(Decode(sh, Whole(dfr[..]))) ==
      Above(msdr, Pow(1000, sh.declets), ContValue(Whole(dfr[..]), sh.declets))
    ensures fresh(df) && IsEncoding(sh, df[..])
    ensures Whole(df[..]) ==
      Encode(sh, Num(neg, bexp, ContOf(Decode(sh, Whole(dfl[..]))) + ContOf(Decode(sh, Whole(dfr[..])))))
  {
    hide Whole, Pow, Above, Units, PackCont, ContValue, Decode, TopOf, ContOf;
    var tac := GetCoeffThou(sh, dfl, msdl);
    var d := GetCoeffThou(sh, dfr, msdr);
    AddCoeffThou(tac, d[..]);
    ghost var c := Units(1000, tac[..]);
    assert tac[sh.declets] <= 9 && AreUnits(1000, tac[..]);
    TopUnit(tac[..], sh.declets);
    var top := RebuiltTop(sh, dfl, bexp, tac[sh.declets], neg, c);
    df := new nat[sh.words](_ => 0);
    SetTop(sh, df, top);
    PlaceThousands(sh, df, tac, top);
    assert ContOf(Num(neg, bexp, c)) == c by { NumCont(neg, bexp, c); }
  }

  lemma NumCont(neg: bool, bexp: nat, c: nat)
    ensures ContOf(Num(neg, bexp, c)) == c
  {}

  lemma TopUnit(s: seq<nat>, n: nat)
    requires |s| == n + 1 && AreUnits(1000, s)
    ensures Units(1000, s) / Pow(1000, n) == s[n]
  {
    hide Units, Pow;
    assert s[..n + 1] == s;
    UnitsNext(1000, s, n);
    UnitsBound(1000, s[..n]);
    DivModUnique(Units(1000, s), Pow(1000, n), s[n], Units(1000, s[..n]));
  }

  /* ---- Both paths ---- */

  /** The number a finite encoding holds. */
  function Held(f: Format, d: Decoded): Number
    requires d.Num?
  {
    Finite(d.neg, d.coeff, d.bexp + f.etiny)
  }

  lemma HeldIsHeld(sh: Shape, f: Format, d: Decoded)
    requires Encodes(sh, f) && d.Num? && InRange(sh, d)
    ensures Rounding.Holds(f, Held(f, d)) && d.bexp < 3 * Pow(2, sh.econl)
  {
    hide Pow;
    ThousandsAreTens(sh.declets);
    PowAdd(10, 1, 3 * sh.declets);
    SmallPowers();
  }

  /** What the sum of two finite encodings is to be. */
  ghost function SumOf(f: Format, mode: Mode, dl: Decoded, dr: Decoded): Outcome
    requires f.p > 0 && dl.Num? && dr.Num?
  {
    SumOutcome(f, mode, dl.neg, dl.coeff, dl.bexp + f.etiny, dr.neg, dr.coeff, dr.bexp + f.etiny)
  }

  /** A finite operand read from its words. */
  method ReadNumber(sh: Shape, f: Format, df: array<nat>, neg: bool, bexp: nat, msd: nat, ghost d: Decoded)
    returns (x: Number)
    requires sh.Valid() && IsEncoding(sh, df[..])
    requires d == Num(neg, bexp, Above(msd, Pow(1000, sh.declets), ContValue(Whole(df[..]), sh.declets)))
    ensures x == Held(f, d)
  {
    hide Whole, Pow, Above, Units, ContValue;
    var t := GetCoeffThou(sh, df, msd);
    x := Finite(neg, Units(1000, t[..]), bexp + f.etiny);
  }

  /** The slow path, on the numbers that the words hold. */
  method SlowAddNumbers(sh: Shape, f: Format, l: Number, r: Number, ctx: DecContext) returns (df: array<nat>)
    requires Encodes(sh, f) && Rounding.Holds(f, l) && Rounding.Holds(f, r)
    modifies ctx`status
    ensures fresh(df) && IsEncoding(sh, df[..])
    ensures var o := SumOutcome(f, ctx.round, l.neg, l.coeff, l.exp, r.neg, r.coeff, r.exp);
      Whole(df[..]) == Encode(sh, Stored(f, o.num)) && ctx.status == old(ctx.status) + o.raised
  {
    hide Whole, Pow, Encode, SumOutcome, Stored;
    SumHolds(f, ctx.round, l.neg, l.coeff, l.exp, r.neg, r.coeff, r.exp);
    var x;
    if r.exp <= l.exp {
      x := SlowAdd(f, l, r, ctx);
    } else {
      SumCommutes(f, ctx.round, l.neg, l.coeff, l.exp, r.neg, r.coeff, r.exp);
      x := SlowAdd(f, r, l, ctx);
    }
    df := Store(sh, f, x);
  }

  /** The fast path's encoding is the one that the slow path would lay out, with nothing raised. */
  lemma FastIsSlow(sh: Shape, f: Format, mode: Mode, dl: Decoded, dr: Decoded, msdl: nat, msdr: nat, cl: nat, cr: nat)
    requires Encodes(sh, f) && dl.Num? && dr.Num? && InRange(sh, dl) && InRange(sh, dr)
    requires dl.neg == dr.neg && dl.bexp == dr.bexp && msdl + msdr <= 8
    requires dl.coeff == Above(msdl, Pow(1000, sh.declets), cl) && cl < Pow(1000, sh.declets)
    requires dr.coeff == Above(msdr, Pow(1000, sh.declets), cr) && cr < Pow(1000, sh.declets)
    ensures var o := SumOf(f, mode, dl, dr);
      Stored(f, o.num) == Num(dl.neg, dl.bexp, dl.coeff + dr.coeff) && o.raised == {}
  {
    hide Pow, Above, SumOutcome, Msd, InRange;
    HeldIsHeld(sh, f, dl);
    HeldIsHeld(sh, f, dr);
    LeadingDigits(sh, f, dl, msdl, cl);
    LeadingDigits(sh, f, dr, msdr, cr);
    FastIsSum(f, mode, Held(f, dl), Held(f, dr));
  }

  /** decFloatAdd on two finite encodings: whichever path is taken, the words are the encoding of the exact
      sum rounded once. */
  method AddEncodings(sh: Shape, f: Format, dfl: array<nat>, dfr: array<nat>, ctx: DecContext) returns (df: array<nat>)
    requires Encodes(sh, f) && IsEncoding(sh, dfl[..]) && IsEncoding(sh, dfr[..])
    requires Decode(sh, Whole(dfl[..])).Num? && Decode(sh, Whole(dfr[..])).Num?
    modifies ctx`status
    ensures fresh(df) && IsEncoding(sh, df[..])
    ensures var o := SumOf(f, ctx.round, Decode(sh, Whole(dfl[..])), Decode(sh, Whole(dfr[..])));
      Whole(df[..]) == Encode(sh, Stored(f, o.num)) && ctx.status == old(ctx.status) + o.raised
  {
    hide Whole, Pow, Above, ContValue, Decode, Encode, InRange, SumOutcome, ContOf, HeaderOf, Stored;
    ghost var dl, dr := Decode(sh, Whole(dfl[..])), Decode(sh, Whole(dfr[..]));
    InRangeOf(sh, dfl[..]);
    InRangeOf(sh, dfr[..]);
    HeldIsHeld(sh, f, dl);
    HeldIsHeld(sh, f, dr);
    var negl, hl, msdl := ReadHeader(sh, dfl);
    var negr, hr, msdr := ReadHeader(sh, dfr);
    HeaderSays(dl, negl, hl);
    HeaderSays(dr, negr, hr);
    if msdl + msdr <= 8 && hl.exp == hr.exp && negl == negr {
      df := FastAddWords(sh, dfl, dfr, hl.exp, msdl, msdr, negl);
      FastIsSlow(sh, f, ctx.round, dl, dr, msdl, msdr, ContValue(Whole(dfl[..]), sh.declets),
          ContValue(Whole(dfr[..]), sh.declets));
    } else {
      var l := ReadNumber(sh, f, dfl, negl, hl.exp, msdl, dl);
      var r := ReadNumber(sh, f, dfr, negr, hr.exp, msdr, dr);
      df := SlowAddNumbers(sh, f, l, r, ctx);
    }
  }

  lemma InRangeOf(sh: Shape, s: seq<nat>)
    requires sh.Valid() && IsEncoding(sh, s)
    ensures InRange(sh, Decode(sh, Whole(s))) && ContValue(Whole(s), sh.declets) < Pow(1000, sh.declets)
  {
    hide *;
    WordsHold(sh, s);
    EncodeDecode(sh, Whole(s));
    ContBound(Whole(s), sh.declets);
  }

  lemma LeadingDigits(sh: Shape, f: Format, d: Decoded, msd: nat, cont: nat)
    requires Encodes(sh, f) && d.Num? && d.coeff == Above(msd, Pow(1000, sh.declets), cont)
    requires cont < Pow(1000, sh.declets)
    ensures Msd(f, d.coeff) == msd
  {
    hide Pow, Above;
    ThousandsAreTens(sh.declets);
    AboveParts(msd, Pow(1000, sh.declets), cont, 0);
  }

  lemma SumHolds(f: Format, mode: Mode, n1: bool, c1: nat, e1: int, n2: bool, c2: nat, e2: int)
    requires f.Valid()
    ensures var x := SumOutcome(f, mode, n1, c1, e1, n2, c2, e2).num; !x.NaN? && IsNumber(f, x)
  {
    hide RoundScaled, Aligned;
    var e := Min(e1, e2);
    var x, y := Aligned(c1, e1, e), Aligned(c2, e2, e);
    ScaledHolds(f, mode, n1, if n1 == n2 then x + y else if x > y then x - y else 0, e);
    ScaledHolds(f, mode, n2, if y > x then y - x else 0, e);
    ScaledHolds(f, mode, mode == Floor, 0, e);
  }
}
