/** decFloatToWider and decFloatFromWider. */
module Widening {
  import opened Arith
  import opened Digits
  import opened Rounding
  import opened Context
  import opened RoundingTheorems
  import opened Finalizer
  import opened IntegerDivision
  import opened Addition
  import opened DoubleRounding
  import opened Declet
  import opened Canonicalize
  import opened Encoding
  import opened Interchange

  /** The encoding with shape sh holds the numbers of format f, with a bias of -Etiny. */
  ghost predicate Encodes(sh: Shape, f: Format) {
    sh.Valid() && f.Valid() && f.p == sh.digits && f.kmax + 1 == 3 * Pow(2, sh.econl)
  }

  /** The next wider format: twice the words. */
  ghost predicate Wider(sh: Shape, f: Format, wide: Shape, g: Format) {
    && Encodes(sh, f) && Encodes(wide, g)
    && wide.words == 2 * sh.words && wide.declets > sh.declets
    && g.etiny <= f.etiny && f.etop <= g.etop
  }

  lemma DoubleToQuad()
    ensures Wider(DOUBLE_SHAPE, DOUBLE, QUAD_SHAPE, QUAD)
  {
    assert Pow(2, 4) == 16;
    PowAdd(2, 4, 4);
    PowAdd(2, 8, 4);
  }

  /* ---- A small digit is its own declet ---- */

  lemma SmallDeclet(m: nat)
    requires m <= 9
    ensures FromDeclet(m) == m
  {
    assert Split(m) == Bits(0, 0, 0, 0, m / 8, m % 8 / 2, m % 2) by {
      DivModUnique(m, 256, 0, m);
      DivModUnique(m, 128, 0, m);
      DivModUnique(m, 32, 0, m);
      DivModUnique(m, 16, 0, m);
      DivModUnique(m, 8, m / 8, m % 8);
      DivModUnique(m, 2, m / 2, m % 2);
    }
  }

  lemma {:induction false} HighDeclets(x: nat, k: nat, n: nat)
    requires x < Pow(1024, k) && k <= n
    ensures ContValue(x, n) == ContValue(x, k)
  {
    hide ContValue, FromDeclet, Pow, DecletAt;
    if k < n {
      HighDeclets(x, k, n - 1);
      ContNext(x, n - 1);
      PowMono(1024, k, n - 1);
      DivModUnique(x, Pow(1024, n - 1), 0, x);
      NothingThere(x, n - 1);
      SmallDeclet(0);
    }
  }

  lemma NothingThere(x: nat, k: nat)
    requires x / Pow(1024, k) == 0
    ensures DecletAt(x, k) == 0 && 0 * Pow(1000, k) == 0
  {
    hide Pow;
  }

  /** The leading digit as one more declet. */
  lemma DigitAbove(m: nat, low: nat, k: nat)
    requires m <= 9 && low < Pow(1024, k)
    ensures Above(m, Pow(1024, k), low) < Pow(1024, k + 1)
    ensures ContValue(Above(m, Pow(1024, k), low), k + 1) == Above(m, Pow(1000, k), ContValue(low, k))
  {
    hide ContValue, FromDeclet, Pow, DecletAt, DigitAt;
    AboveIs(m, Pow(1024, k), low);
    AboveIs(m, Pow(1000, k), ContValue(low, k));
    DigitOnTop(1024, m, low, k);
    ContNext(Above(m, Pow(1024, k), low), k);
    DecletIsDigit(Above(m, Pow(1024, k), low), k);
    ContOfSum(m, low, k, k);
    SmallDeclet(m);
  }

  /* ---- Widening ---- */

  /** The same value in the wider format. */
  function Rebased(f: Format, g: Format, d: Decoded): Decoded
    requires g.etiny <= f.etiny
  {
    match d
    case Num(neg, bexp, coeff) => Num(neg, bexp + (f.etiny - g.etiny), coeff)
    case Inf(neg) => Inf(neg)
    case Nan(neg, signalling, payload) => Nan(neg, signalling, payload)
  }

  /** The low half of the wider encoding: the continuation with the leading digit above it. */
  lemma LowWords(sh: Shape, s: seq<nat>, msd: nat)
    requires sh.Valid() && IsEncoding(sh, s) && msd <= 9
    ensures var q := Pow(2, 26 - sh.econl); var x := s[0] % q + msd * q;
      && 0 <= x && (16 * q <= TWO32 ==> x < TWO32)
      && Whole(s[0 := x]) == Above(msd, Pow(1024, sh.declets), Whole(s) % Pow(1024, sh.declets))
  {
    hide Whole, Pow;
    var q, t, p := Pow(2, 26 - sh.econl), Pow(1024, sh.declets), Pow(TWO32, sh.words - 1);
    TopWord(sh, s);
    DivBounds(s[0], q);
    MulMono(0, msd, q);
    MulMono(msd + 1, 16, q);
    assert (msd + 1) * q == msd * q + q;
    var x := s[0] % q + msd * q;
    WholeUpdate(s, 0, x);
    DivBounds(Whole(s), t);
    AboveIs(msd, t, Whole(s) % t);
    LowArith(Whole(s), t, q, p, s[0], msd, x);
  }

  lemma LowArith(v: nat, t: nat, q: nat, p: nat, s0: nat, msd: nat, x: nat)
    requires t > 0 && q > 0 && t == p * q && v / t == s0 / q && x == s0 % q + msd * q
    ensures v + (x - s0) * p == msd * t + v % t
  {
    hide *;
    DivBounds(v, t);
    DivBounds(s0, q);
    var h := s0 / q;
    assert x - s0 == msd * q - h * q;
    assert (msd * q - h * q) * p == msd * q * p - h * q * p;
    MulAssoc(msd, q, p);
    MulAssoc(h, q, p);
    assert q * p == p * q;
  }

  lemma SelectorWidth(sh: Shape)
    requires sh.Valid()
    ensures 16 * Pow(2, 26 - sh.econl) <= TWO32
  {
    hide Pow;
    PowMono(2, 26 - sh.econl, 24);
    BinaryPowers();
    PowAdd(2, 24, 4);
    PowAdd(2, 28, 4);
    SixtyFour();
    PowAdd(2, 4, 2);
    PowOne(2);
    PowAdd(2, 1, 1);
  }

  /** The whole of the wider encoding. */
  lemma WholeOfWider(wide: Shape, top: seq<nat>, low: seq<nat>)
    requires wide.Valid() && IsEncoding(wide, top + low) && |top| > 0 && forall i :: 1 <= i < |top| ==> top[i] == 0
    requires top[0] % Pow(2, 26 - wide.econl) == 0 && Whole(low) < Pow(1024, wide.declets)
    ensures var v, t := Whole(top + low), Pow(1024, wide.declets);
      v / t == top[0] / Pow(2, 26 - wide.econl) && v % t == Whole(low)
  {
    hide Whole, Pow;
    var q, t, p := Pow(2, 26 - wide.econl), Pow(1024, wide.declets), Pow(TWO32, wide.words - 1);
    TopWord(wide, top + low);
    assert (top + low)[0] == top[0];
    assert top + low == [top[0]] + (top[1..] + low);
    WholeConcat([top[0]], top[1..] + low);
    WholeConcat(top[1..], low);
    ZeroWhole(top[1..]);
    WholeOfOne(top[0]);
    DivBounds(top[0], q);
    MulAssoc(top[0] / q, q, p);
    assert q * p == p * q;
    DivModUnique(Whole(top + low), t, top[0] / q, Whole(low));
  }

  lemma WholeOfOne(x: nat)
    ensures Whole([x]) == x && Whole([]) == 0
  {
    assert [x][..0] == [];
  }

  /* ---- Canonical encodings ---- */

  lemma CanonicalParts(sh: Shape, v: nat)
    requires sh.Valid() && v / Pow(1024, sh.declets) < 64 * Pow(2, sh.econl)
    ensures var d, t := Decode(sh, v), Pow(1024, sh.declets);
      IsCanonical(sh, v) <==> v / t == TopOf(sh, d) && v % t == PackCont(ContOf(d), sh.declets)
  {
    hide Pow, Decode, TopOf, ContOf, PackCont;
    var d, t := Decode(sh, v), Pow(1024, sh.declets);
    PackBound(ContOf(d), sh.declets);
    AboveParts(TopOf(sh, d), t, PackCont(ContOf(d), sh.declets), 0);
    AboveSplit(v, t, 0);
  }

  lemma {:induction false} HighDigits(c: nat, k: nat, n: nat)
    requires c < Pow(1000, k) && k <= n
    ensures PackCont(c, n) == PackCont(c, k)
  {
    hide PackCont, ToDeclet, Pow, DigitAt;
    if k < n {
      HighDigits(c, k, n - 1);
      PackNext(c, n - 1);
      PowMono(1000, k, n - 1);
      DivModUnique(c, Pow(1000, n - 1), 0, c);
      NoDigitThere(c, n - 1);
    }
  }

  lemma NoDigitThere(c: nat, k: nat)
    requires c / Pow(1000, k) == 0
    ensures ToDeclet(DigitAt(1000, c, k)) * Pow(1024, k) == 0
  {
    hide Pow, ToDeclet;
    SmallDigit(0);
    assert DigitAt(1000, c, k) == 0;
    hide DigitAt;
  }

  lemma SmallDigit(m: nat)
    requires m <= 9
    ensures ToDeclet(m) == m
  {
    hide ToDeclet, FromDeclet;
    SmallDeclet(m);
    DecletCanonical(m);
    LowIsCanonical(m);
    CanonicalIs(m);
  }

  /** Packing one more digit. */
  lemma PackAbove(m: nat, c: nat, k: nat, n: nat)
    requires m <= 9 && c < Pow(1000, k) && k < n
    ensures PackCont(Above(m, Pow(1000, k), c), n) == Above(m, Pow(1024, k), PackCont(c, k))
  {
    hide PackCont, ToDeclet, Pow, DigitAt;
    var x := Above(m, Pow(1000, k), c);
    AboveIs(m, Pow(1000, k), c);
    AboveIs(m, Pow(1024, k), PackCont(c, k));
    DigitOnTop(1000, m, c, k);
    HighDigits(x, k + 1, n);
    PackNext(x, k);
    PackOfSum(m, c, k, k);
    SmallDigit(m);
  }

  /* ---- decFloatToWider ---- */

  /** The low half, copied; the rest stays as it is. */
  method CopyLow(sh: Shape, df: array<nat>, msd: nat, w: array<nat>)
    requires sh.Valid() && IsEncoding(sh, df[..]) && msd <= 9 && w.Length == 2 * sh.words && w != df
    modifies w
    ensures w[..sh.words] == old(w[..sh.words]) && AreWords(w[sh.words..])
    ensures Whole(w[sh.words..]) == Above(msd, Pow(1024, sh.declets), Whole(df[..]) % Pow(1024, sh.declets))
  {
    hide Whole, Pow, Above;
    var n := sh.words;
    ghost var s := df[..];
    LowWords(sh, s, msd);
    SelectorWidth(sh);
    var x := df[0] % Pow(2, 26 - sh.econl) + msd * Pow(2, 26 - sh.econl);
    w[n] := x;
    var i := 1;
    while i < n
      invariant 1 <= i <= n && df[..] == s && w[..n] == old(w[..n]) && w[n] == x
      invariant forall j :: 1 <= j < i ==> w[n + j] == s[j]
    {
      w[n + i] := df[i];
      i := i + 1;
    }
    assert w[n..] == s[0 := x];
  }

  /** The fields above the declets, in the first word. */
  function TopOfWord(sh: Shape, x: nat): nat
    requires sh.econl <= 26
  {
    QuotientNat(x, Pow(2, 26 - sh.econl));
    x / Pow(2, 26 - sh.econl)
  }

  /** Nothing below them. */
  predicate OnlyTop(sh: Shape, x: nat)
    requires sh.econl <= 26
  {
    x < TWO32 && x % Pow(2, 26 - sh.econl) == 0
  }

  /** The combination field of s0 and, of its exponent continuation, only the first bit. */
  ghost predicate KeepsSpecial(sh: Shape, top: nat, s0: nat) {
    var e := Pow(2, sh.econl);
    && top / e == s0 / 0x400_0000
    && top % e == (if s0 % 0x400_0000 >= 0x200_0000 then HalfOf(e) else 0)
  }

  function HalfOf(e: nat): nat { e / 2 }

  /** The first word of the wider encoding of a special value: sign, combination field and selector. */
  lemma SpecialTop(wide: Shape, s0: nat)
    requires wide.Valid() && s0 < TWO32
    ensures var w0 := s0 - s0 % 0x200_0000; w0 >= 0 && OnlyTop(wide, w0) && KeepsSpecial(wide, TopOfWord(wide, w0), s0)
  {
    hide Pow;
    var w0 := s0 - s0 % 0x200_0000;
    var e, q, h := Pow(2, wide.econl), Pow(2, 26 - wide.econl), Pow(2, wide.econl - 1);
    HalfExponent(wide.econl);
    SelectorPower(wide);
    DoubleSelector(e, q, h);
    FieldsOfWord(w0, e, q);
    WordHalves(s0, w0);
    HalfWord(w0, q, h);
  }

  lemma DoubleSelector(e: nat, q: nat, h: nat)
    requires e == 2 * h && h * q == 0x200_0000
    ensures e * q == 0x400_0000
  {
    MulAssoc(2, h, q);
  }

  lemma WordHalves(s0: nat, w0: int)
    requires w0 == s0 - s0 % 0x200_0000
    ensures 0 <= w0 && w0 / 0x400_0000 == s0 / 0x400_0000 && w0 % 0x200_0000 == 0
    ensures w0 % 0x400_0000 == if s0 % 0x400_0000 >= 0x200_0000 then 0x200_0000 else 0
  {
    var k, r := s0 / 0x400_0000, s0 % 0x400_0000;
    DivBounds(s0, 0x400_0000);
    if r >= 0x200_0000 {
      DivModUnique(s0, 0x200_0000, 2 * k + 1, r - 0x200_0000);
      DivModUnique(w0, 0x400_0000, k, 0x200_0000);
      DivModUnique(w0, 0x200_0000, 2 * k + 1, 0);
    } else {
      DivModUnique(s0, 0x200_0000, 2 * k, r);
      DivModUnique(w0, 0x400_0000, k, 0);
      DivModUnique(w0, 0x200_0000, 2 * k, 0);
    }
  }

  lemma HalfWord(w0: nat, q: nat, h: nat)
    requires q > 0 && h > 0 && h * q == 0x200_0000 && w0 % 0x200_0000 == 0
    ensures w0 % q == 0 && 0x200_0000 / q == h && 0 / q == 0
  {
    var k := w0 / 0x200_0000;
    assert w0 == k * 0x200_0000;
    MulAssoc(k, h, q);
    DivModUnique(w0, q, k * h, 0);
    DivModUnique(0x200_0000, q, h, 0);
    DivModUnique(0, q, 0, 0);
  }

  /** A finite number's fields are kept in the wider encoding. */
  lemma RebasedFits(sh: Shape, f: Format, wide: Shape, g: Format, d: Decoded)
    requires Wider(sh, f, wide, g) && InRange(sh, d)
    ensures InRange(wide, Rebased(f, g, d))
    ensures d.Num? ==> d.coeff < Pow(1000, wide.declets) && d.coeff / Pow(1000, wide.declets) == 0
  {
    hide Pow;
    PowMono(1000, sh.declets, wide.declets);
    if d.Num? { DivModUnique(d.coeff, Pow(1000, wide.declets), 0, d.coeff); }
  }

  /** What the two halves of the wider encoding mean. */
  lemma WiderMeans(sh: Shape, f: Format, wide: Shape, g: Format, v: nat, msd: nat, w: nat)
    requires Wider(sh, f, wide, g) && msd <= 9 && v / Pow(1024, sh.declets) < 64 * Pow(2, sh.econl)
    requires ContOf(Decode(sh, v)) ==
      if Decode(sh, v).Inf? then 0 else Above(msd, Pow(1000, sh.declets), ContValue(v, sh.declets))
    requires !Decode(sh, v).Num? ==> msd == 0
    requires w % Pow(1024, wide.declets) == Above(msd, Pow(1024, sh.declets), v % Pow(1024, sh.declets))
    ensures !Decode(sh, v).Inf? ==> ContValue(w, wide.declets) == ContOf(Decode(sh, v))
    ensures IsCanonical(sh, v) ==> w % Pow(1024, wide.declets) == PackCont(ContOf(Decode(sh, v)), wide.declets)
  {
    hide Pow, Decode, ContValue, PackCont, Above, ContOf;
    var k, n, t := sh.declets, wide.declets, Pow(1024, sh.declets);
    var x := Above(msd, t, v % t);
    DivBounds(v, t);
    DivBounds(w, Pow(1024, n));
    QuotientNat(v, t);
    QuotientNat(w, Pow(1024, n));
    ContOfSum(v / t, v % t, k, k);
    ContOfSum(w / Pow(1024, n), w % Pow(1024, n), n, n);
    DigitAbove(msd, v % t, k);
    HighDeclets(x, k + 1, n);
    CanonicalParts(sh, v);
    if IsCanonical(sh, v) {
      if Decode(sh, v).Inf? {
        ZeroPacked(k);
        ZeroPacked(n);
        AboveZero(t, 0);
      } else {
        ContBound(v, k);
        PackAbove(msd, ContValue(v, k), k, n);
        CanonicalCont(sh, v, msd);
      }
    }
  }

  /** The declets of a canonical encoding are packed from what they say. */
  lemma CanonicalCont(sh: Shape, v: nat, msd: nat)
    requires sh.Valid() && v % Pow(1024, sh.declets) == PackCont(ContOf(Decode(sh, v)), sh.declets)
    requires ContOf(Decode(sh, v)) == Above(msd, Pow(1000, sh.declets), ContValue(v, sh.declets))
    ensures PackCont(ContValue(v, sh.declets), sh.declets) == v % Pow(1024, sh.declets)
  {
    hide Pow, Decode, ContValue, PackCont, ContOf, Above;
    AboveIs(msd, Pow(1000, sh.declets), ContValue(v, sh.declets));
    PackOfSum(msd, ContValue(v, sh.declets), sh.declets, sh.declets);
  }

  /** With its continuation, top means d. */
  ghost predicate TopMeans(sh: Shape, top: nat, d: Decoded)
    requires sh.econl >= 2
  {
    forall cont :: d.Inf? || cont == ContOf(d) ==> DecodeFields(sh, top, cont) == d
  }

  /** The first word of the wider encoding. */
  method WiderTop(sh: Shape, f: Format, wide: Shape, g: Format, df: array<nat>, neg: bool, h: Header)
    returns (code: nat)
    requires Wider(sh, f, wide, g) && IsEncoding(sh, df[..])
    requires HeaderOf(Decode(sh, Whole(df[..])), neg, h) && InRange(sh, Decode(sh, Whole(df[..])))
    ensures OnlyTop(wide, code) && TopMeans(wide, TopOfWord(wide, code), Rebased(f, g, Decode(sh, Whole(df[..]))))
    ensures IsCanonical(sh, Whole(df[..])) ==>
      TopOfWord(wide, code) == TopOf(wide, Rebased(f, g, Decode(sh, Whole(df[..]))))
  {
    hide Pow, Decode, Whole, TopOf, TopMeans, InRange, IsCanonical, Rebased, HeaderOf, IsEncoding, OnlyTop, TopOfWord,
      KeepsSpecial;
    ghost var d := Decode(sh, Whole(df[..]));
    HeaderNum(d, neg, h);
    if h.BiasedExp? {
      code := FiniteWord(sh, f, wide, g, neg, h.exp, d);
    } else {
      FirstWord(sh, df[..]);
      SpecialTop(wide, df[0]);
      code := df[0] - df[0] % 0x200_0000;
      SpecialMeans(sh, f, wide, g, df[..], TopOfWord(wide, code));
    }
  }

  lemma HeaderNum(d: Decoded, neg: bool, h: Header)
    requires HeaderOf(d, neg, h)
    ensures h.BiasedExp? <==> d.Num?
  {}

  lemma FirstWord(sh: Shape, s: seq<nat>)
    requires sh.Valid() && IsEncoding(sh, s)
    ensures |s| > 0 && s[0] < TWO32
  {}

  /** Sign, rebiased exponent and a leading digit of zero. */
  method FiniteWord(sh: Shape, f: Format, wide: Shape, g: Format, neg: bool, bexp: nat, ghost d: Decoded)
    returns (code: nat)
    requires Wider(sh, f, wide, g) && InRange(sh, d) && HeaderOf(d, neg, BiasedExp(bexp))
    ensures OnlyTop(wide, code) && TopMeans(wide, TopOfWord(wide, code), Rebased(f, g, d))
    ensures TopOfWord(wide, code) == TopOf(wide, Rebased(f, g, d))
  {
    hide Pow, TopOf, InRange, DecodeFields;
    var q := Pow(2, 26 - wide.econl);
    RebasedFits(sh, f, wide, g, d);
    HeldRange(wide, Rebased(f, g, d));
    var top := TopField(wide, neg, BiasedExp(bexp + (f.etiny - g.etiny)), d.coeff, 0);
    TopWordFits(wide, top);
    code := top * q;
    DivModUnique(code, q, top, 0);
    FiniteTop(wide, Rebased(f, g, d), top);
  }

  lemma HeldRange(sh: Shape, d: Decoded)
    requires sh.Valid() && InRange(sh, d) && d.Num?
    ensures d.bexp < 3 * Pow(2, sh.econl) && d.coeff < 10 * Pow(1000, sh.declets)
  {}

  lemma TopWordFits(sh: Shape, top: nat)
    requires sh.Valid() && top < 64 * Pow(2, sh.econl)
    ensures 0 <= top * Pow(2, 26 - sh.econl) < TWO32
  {
    hide Pow;
    HalfExponent(sh.econl);
    SelectorPower(sh);
    DoubleSelector(Pow(2, sh.econl), Pow(2, 26 - sh.econl), Pow(2, sh.econl - 1));
    TopFits(top, Pow(2, sh.econl), Pow(2, 26 - sh.econl));
  }

  lemma FiniteTop(sh: Shape, d: Decoded, top: nat)
    requires sh.Valid() && d.Num? && InRange(sh, d) && d.coeff < Pow(1000, sh.declets)
    requires top == TopOf(sh, d)
    ensures DecodeFields(sh, top, d.coeff) == d
  {
    hide Pow, TopOf, DecodeFields;
    DecodeTop(sh, d);
    DivModUnique(d.coeff, Pow(1000, sh.declets), 0, d.coeff);
  }

  /** Sign, special value and selector of the narrower first word. */
  lemma SpecialFields(sh: Shape, s: seq<nat>)
    requires sh.Valid() && IsEncoding(sh, s) && !Decode(sh, Whole(s)).Num?
    ensures var d, comb := Decode(sh, Whole(s)), s[0] / 0x400_0000;
      && comb == SignBit(d.neg) + (if d.Inf? then 30 else 31)
      && (d.Nan? ==> (d.signalling <==> s[0] % 0x400_0000 >= 0x200_0000))
      && (d.Inf? && IsCanonical(sh, Whole(s)) ==> s[0] % 0x400_0000 < 0x200_0000)
  {
    hide Pow, Whole, ContValue, PackCont, Above, SignBit;
    var e, q := Pow(2, sh.econl), Pow(2, 26 - sh.econl);
    TopWord(sh, s);
    CanonicalParts(sh, Whole(s));
    FieldsOfWord(s[0], e, q);
    HalfExponent(sh.econl);
    SelectorPower(sh);
    SelectorThreshold(s[0] % 0x400_0000, q, Pow(2, sh.econl - 1));
    SixBits(s[0]);
    SignAndComb(s[0] / 0x400_0000);
    if Decode(sh, Whole(s)).Inf? { ClearEcon(SignBit(Decode(sh, Whole(s)).neg) + 30, e); }
  }

  lemma SixBits(x: nat)
    requires x < TWO32
    ensures x / 0x400_0000 < 64
  {}

  lemma ClearEcon(c: nat, e: nat)
    requires e > 0
    ensures Above(c, e, 0) % e == 0
  {
    AboveParts(c, e, 0, 0);
  }

  lemma SelectorThreshold(x: nat, q: nat, h: nat)
    requires q > 0 && h > 0 && h * q == 0x200_0000
    ensures x / q >= h <==> x >= 0x200_0000
  {
    if x >= 0x200_0000 { DivGe(x, q, h); } else { DivLt(x, q, h); }
  }

  lemma SpecialMeans(sh: Shape, f: Format, wide: Shape, g: Format, s: seq<nat>, top: nat)
    requires Wider(sh, f, wide, g) && IsEncoding(sh, s) && !Decode(sh, Whole(s)).Num?
    requires KeepsSpecial(wide, top, s[0])
    ensures TopMeans(wide, top, Rebased(f, g, Decode(sh, Whole(s))))
    ensures IsCanonical(sh, Whole(s)) ==> top == TopOf(wide, Rebased(f, g, Decode(sh, Whole(s))))
  {
    hide Pow, Whole, Decode, SignBit, Above, IsCanonical;
    SpecialFields(sh, s);
    var d := Decode(sh, Whole(s));
    SignOfComb(d.neg, if d.Inf? then 30 else 31);
    HalfExponent(wide.econl);
    var e := Pow(2, wide.econl);
    AboveSplit(top, e, 0);
  }

  /** decFloatToWider: the same value, exponent and payload, and canonical if the source is. */
  method ToWider(sh: Shape, f: Format, wide: Shape, g: Format, df: array<nat>) returns (w: array<nat>)
    requires Wider(sh, f, wide, g) && IsEncoding(sh, df[..])
    ensures fresh(w) && IsEncoding(wide, w[..])
    ensures Decode(wide, Whole(w[..])) == Rebased(f, g, Decode(sh, Whole(df[..])))
    ensures IsCanonical(sh, Whole(df[..])) ==> IsCanonical(wide, Whole(w[..]))
  {
    hide Pow, Decode, Whole, TopOf, TopMeans, InRange, IsCanonical, ContOf, Above, HeaderOf, Rebased;
    ghost var v := Whole(df[..]);
    WordsHold(sh, df[..]);
    EncodeDecode(sh, v);
    var neg, h, msd := ReadHeader(sh, df);
    var code := WiderTop(sh, f, wide, g, df, neg, h);
    w := Halves(sh, wide, df, code, msd);
    WordsHold(wide, w[..]);
    HeaderKinds(Decode(sh, v), neg, h);
    WiderMeans(sh, f, wide, g, v, msd, Whole(w[..]));
    Widened(sh, f, wide, g, v, Whole(w[..]));
  }

  lemma HeaderKinds(d: Decoded, neg: bool, h: Header)
    requires HeaderOf(d, neg, h)
    ensures (h.BiasedExp? <==> d.Num?) && (h.InfHeader? <==> d.Inf?)
  {}

  /** The two halves put together. */
  method Halves(sh: Shape, wide: Shape, df: array<nat>, code: nat, msd: nat) returns (w: array<nat>)
    requires sh.Valid() && wide.Valid() && wide.words == 2 * sh.words && wide.declets > sh.declets
    requires IsEncoding(sh, df[..]) && msd <= 9 && OnlyTop(wide, code)
    ensures fresh(w) && IsEncoding(wide, w[..])
    ensures Whole(w[..]) / Pow(1024, wide.declets) == TopOfWord(wide, code)
    ensures Whole(w[..]) % Pow(1024, wide.declets) ==
      Above(msd, Pow(1024, sh.declets), Whole(df[..]) % Pow(1024, sh.declets))
  {
    hide Pow, Whole, Above;
    w := new nat[wide.words](_ => 0);
    w[0] := code;
    CopyLow(sh, df, msd, w);
    assert w[..] == w[..sh.words] + w[sh.words..];
    LowFits(sh, wide, Whole(df[..]), msd, Whole(w[sh.words..]));
    WholeOfWider(wide, w[..sh.words], w[sh.words..]);
  }

  lemma LowFits(sh: Shape, wide: Shape, v: nat, msd: nat, low: nat)
    requires sh.declets < wide.declets && msd <= 9
    requires low == Above(msd, Pow(1024, sh.declets), v % Pow(1024, sh.declets))
    ensures low < Pow(1024, wide.declets)
  {
    hide Pow, Above;
    DivBounds(v, Pow(1024, sh.declets));
    DigitAbove(msd, v % Pow(1024, sh.declets), sh.declets);
    PowMono(1024, sh.declets + 1, wide.declets);
  }

  lemma Widened(sh: Shape, f: Format, wide: Shape, g: Format, v: nat, w: nat)
    requires Wider(sh, f, wide, g)
    requires var d, d', top := Decode(sh, v), Rebased(f, g, Decode(sh, v)), w / Pow(1024, wide.declets);
      && top >= 0 && TopMeans(wide, top, d')
      && (!d.Inf? ==> ContValue(w, wide.declets) == ContOf(d))
      && (IsCanonical(sh, v) ==>
          top == TopOf(wide, d') && w % Pow(1024, wide.declets) == PackCont(ContOf(d), wide.declets))
      && top < 64 * Pow(2, wide.econl)
    ensures Decode(wide, w) == Rebased(f, g, Decode(sh, v))
    ensures IsCanonical(sh, v) ==> IsCanonical(wide, w)
  {
    hide Pow, ContValue, PackCont, TopOf, DecodeFields, IsCanonical;
    var d := Decode(sh, v);
    assert ContOf(Rebased(f, g, d)) == ContOf(d);
    assert Decode(wide, w) == DecodeFields(wide, w / Pow(1024, wide.declets), ContValue(w, wide.declets));
    CanonicalParts(wide, w);
  }

  /* ---- decFloatFromWider ---- */

  /** A finalized result as the fields of an encoding. */
  function Stored(f: Format, x: Number): Decoded {
    match x
    case Finite(neg, coeff, exp) => Num(neg, if exp >= f.etiny then exp - f.etiny else 0, coeff)
    case Infinite(neg) => Inf(neg)
    case NaN(signalling) => Nan(false, signalling, 0)
  }

  /** A number of the wider format rounded into the narrower one; a NaN keeps the low digits of its payload. */
  function Narrowed(sh: Shape, f: Format, g: Format, mode: Mode, d: Decoded): (Decoded, set<Condition>)
    requires f.p > 0
  {
    match d
    case Num(neg, bexp, coeff) => var o := RoundScaled(f, mode, neg, coeff, bexp + g.etiny);
        (Stored(f, o.num), o.raised)
    case Inf(neg) => (Inf(neg), {})
    case Nan(neg, signalling, payload) => (Nan(neg, signalling, payload % Pow(1000, sh.declets)), {})
  }

  /** Lays out a finalized result. */
  method Store(sh: Shape, f: Format, x: Number) returns (df: array<nat>)
    requires Encodes(sh, f) && !x.NaN? && IsNumber(f, x)
    ensures fresh(df) && IsEncoding(sh, df[..]) && Whole(df[..]) == Encode(sh, Stored(f, x))
  {
    hide Pow, Whole, Val, TopOf, Above, PackCont, DecimalDigits;
    var bcdar := new nat[sh.digits](_ => 0);
    match x {
      case Infinite(neg) =>
        ValZeros(bcdar[..]);
        AskedTopIs(sh, neg, InfHeader(false), 0);
        df := FromBcd(sh, neg, InfHeader(false), bcdar);
      case Finite(neg, coeff, exp) =>
        GetCoeff(bcdar, 0, coeff, f.p);
        assert bcdar[0..0 + f.p] == bcdar[..];
        df := FromBcd(sh, neg, BiasedExp(exp - f.etiny), bcdar);
    }
  }

  /** Lays out a special value with the low digits of a coefficient. */
  method StoreSpecial(sh: Shape, neg: bool, h: Header, digits: array<nat>) returns (df: array<nat>)
    requires sh.Valid() && !h.BiasedExp? && digits.Length >= sh.digits && AreDigits(digits[..])
    ensures fresh(df) && IsEncoding(sh, df[..])
    ensures Whole(df[..]) == SpecialWhole(sh, neg, h, Val(digits[..]))
  {
    hide Pow, Whole, Val, AskedWhole;
    var bcdar := new nat[sh.digits](_ => 0);
    var n := sh.digits - 1;
    forall i | 0 <= i < n { bcdar[1 + i] := digits[digits.Length - n + i]; }
    ghost var low := digits[..][digits.Length - n..];
    assert bcdar[..] == [0] + low;
    ValPrepend(0, low);
    CutValue(digits[..], digits.Length - n);
    ThousandsAreTens(sh.declets);
    df := FromBcd(sh, neg, h, bcdar);
  }

  /** GETWCOEFF: sign, exponent or special, and all the digits, those of an infinity too. */
  method WideDigits(wide: Shape, w: array<nat>) returns (neg: bool, h: Header, bcdar: array<nat>)
    requires wide.Valid() && IsEncoding(wide, w[..])
    ensures HeaderOf(Decode(wide, Whole(w[..])), neg, h) && (h.InfHeader? ==> h.selector == Selected(w[0]))
    ensures fresh(bcdar) && bcdar.Length == wide.digits && AreDigits(bcdar[..])
    ensures !h.InfHeader? ==> Val(bcdar[..]) == ContOf(Decode(wide, Whole(w[..])))
    ensures h.InfHeader? ==> Val(bcdar[..]) == ContValue(Whole(w[..]), wide.declets)
  {
    hide Whole, Pow, ContValue, Above, Decode, Val, ContOf;
    var msd;
    neg, h, msd := ReadHeader(wide, w);
    bcdar := new nat[wide.digits](_ => 0);
    ReadDeclets(wide, w, bcdar);
    ghost var tail := bcdar[1..];
    bcdar[0] := msd;
    assert bcdar[..] == [msd] + tail;
    ValPrepend(msd, tail);
    ThousandsAreTens(wide.declets);
    AboveIs(msd, Pow(1000, wide.declets), Val(tail));
    AboveZero(Pow(1000, wide.declets), Val(tail));
  }

  /** What is laid out for a NaN or an infinity of the wider format. */
  function SpecialWhole(sh: Shape, neg: bool, h: Header, digits: nat): nat
    requires sh.Valid()
  {
    AskedWhole(sh, neg, h, digits % Pow(1000, sh.declets))
  }

  lemma NarrowSpecial(sh: Shape, neg: bool, h: Header, digits: nat)
    requires sh.Valid() && !h.BiasedExp?
    ensures var v, c := SpecialWhole(sh, neg, h, digits), digits % Pow(1000, sh.declets);
      && Decode(sh, v) == (if h.InfHeader? then Inf(neg) else Nan(neg, h.signalling, c))
      && (IsCanonical(sh, v) <==> !(h.InfHeader? && (h.selector || c != 0)))
  {
    hide Pow, Decode, AskedWhole, IsCanonical;
    var t := Pow(1000, sh.declets);
    var c := digits % t;
    DivBounds(digits, t);
    DivModUnique(c, t, 0, c);
    AskedDecodes(sh, neg, h, c);
    AskedCanonicalIff(sh, neg, h, c);
  }

  lemma CanonicalInfinity(wide: Shape, s: seq<nat>)
    requires wide.Valid() && IsEncoding(wide, s) && IsCanonical(wide, Whole(s)) && Decode(wide, Whole(s)).Inf?
    ensures ContValue(Whole(s), wide.declets) == 0 && !Selected(s[0])
  {
    hide Pow, Decode, PackCont, TopOf, ContValue, IsCanonical, Whole;
    var v, t := Whole(s), Pow(1024, wide.declets);
    WordsHold(wide, s);
    SpecialFields(wide, s);
    UpperHalf(s[0]);
    CanonicalParts(wide, v);
    ZeroPacked(wide.declets);
    DivBounds(v, t);
    QuotientNat(v, t);
    ContOfSum(v / t, v % t, wide.declets, wide.declets);
    HighDeclets(0, 0, wide.declets);
    NoneOfZero();
  }

  lemma UpperHalf(x: nat)
    ensures Selected(x) <==> x % 0x400_0000 >= 0x200_0000
  {
    TopBit(x, 0x200_0000);
  }

  lemma NoneOfZero()
    ensures ContValue(0, 0) == 0 && 0 < Pow(1024, 0)
  {}

  /** decFloatFromWider: rounded once; infinities and NaNs are copied and raise nothing. */
  method FromWider(sh: Shape, f: Format, wide: Shape, g: Format, w: array<nat>, ctx: DecContext)
    returns (df: array<nat>)
    requires Wider(sh, f, wide, g) && IsEncoding(wide, w[..])
    modifies ctx`status
    ensures fresh(df) && IsEncoding(sh, df[..])
    ensures var n := Narrowed(sh, f, g, ctx.round, Decode(wide, old(Whole(w[..]))));
      Decode(sh, Whole(df[..])) == n.0 && ctx.status == old(ctx.status) + n.1
    ensures var v := old(Whole(w[..])); IsCanonical(wide, v) || !Decode(wide, v).Inf? ==> IsCanonical(sh, Whole(df[..]))
    ensures var v := old(Whole(w[..])); Decode(wide, v).Inf? ==>
      var h := InfHeader(Selected(old(w[0])));
      Whole(df[..]) == SpecialWhole(sh, Decode(wide, v).neg, h, ContValue(v, wide.declets))
  {
    hide Whole, Pow, ContValue, Above, Decode, Val, RoundScaled, Encode, IsCanonical, InRange, Stored, HeaderOf,
        Narrowed,
      SpecialWhole, ContOf;
    ghost var v := Whole(w[..]);
    ghost var d := Decode(wide, v);
    var neg, h, bcdar := WideDigits(wide, w);
    WordsHold(wide, w[..]);
    HeaderSays(d, neg, h);
    match h {
      case BiasedExp(bexp) =>
        df := NarrowFinite(sh, f, g, neg, bexp, bcdar, d, ctx);
      case NanHeader(_) =>
        df := StoreSpecial(sh, neg, h, bcdar);
        NarrowSpecial(sh, neg, h, Val(bcdar[..]));
        NarrowedSpecial(sh, f, g, ctx.round, d);
      case InfHeader(_) =>
        df := StoreSpecial(sh, neg, h, bcdar);
        NarrowSpecial(sh, neg, h, Val(bcdar[..]));
        NarrowedSpecial(sh, f, g, ctx.round, d);
        if IsCanonical(wide, v) {
          CanonicalInfinity(wide, w[..]);
          DivModUnique(0, Pow(1000, sh.declets), 0, 0);
        }
    }
  }

  lemma HeaderSays(d: Decoded, neg: bool, h: Header)
    requires HeaderOf(d, neg, h)
    ensures d == match h
                 case BiasedExp(bexp) => Num(neg, bexp, ContOf(d))
                 case InfHeader(_) => Inf(neg)
                 case NanHeader(signalling) => Nan(neg, signalling, ContOf(d))
  {}

  lemma NarrowedSpecial(sh: Shape, f: Format, g: Format, mode: Mode, d: Decoded)
    requires f.p > 0 && !d.Num?
    ensures Narrowed(sh, f, g, mode, d) ==
      (if d.Inf? then Inf(d.neg) else Nan(d.neg, d.signalling, ContOf(d) % Pow(1000, sh.declets)), {})
  {}

  method NarrowFinite(sh: Shape, f: Format, g: Format, neg: bool, bexp: nat, bcdar: array<nat>, ghost d: Decoded,
                      ctx: DecContext)
    returns (df: array<nat>)
    requires Encodes(sh, f) && bcdar.Length > 0 && AreDigits(bcdar[..]) && d == Num(neg, bexp, Val(bcdar[..]))
    modifies bcdar, ctx`status
    ensures fresh(df) && IsEncoding(sh, df[..])
    ensures var n := Narrowed(sh, f, g, ctx.round, d);
      Decode(sh, Whole(df[..])) == n.0 && ctx.status == old(ctx.status) + n.1
    ensures IsCanonical(sh, Whole(df[..]))
  {
    hide Whole, Pow, Decode, Val, RoundScaled, Encode, InRange, Stored, IsCanonical;
    assert bcdar[0..bcdar.Length - 1 + 1] == bcdar[..];
    var num := new BcdNum(bcdar, 0, bcdar.Length - 1, neg, bexp + g.etiny);
    ScaledHolds(f, ctx.round, neg, Val(bcdar[..]), bexp + g.etiny);
    var x := Finalize(f, num, ctx);
    df := Store(sh, f, x);
    StoredInRange(sh, f, x);
    DecodeEncode(sh, Stored(f, x));
    EncodedIsCanonical(sh, Stored(f, x));
  }

  lemma ScaledHolds(f: Format, mode: Mode, neg: bool, c: nat, e: int)
    requires f.Valid()
    ensures var x := RoundScaled(f, mode, neg, c, e).num; !x.NaN? && IsNumber(f, x)
  {
    hide RoundExact, Pow;
    ResultHolds(f, mode, neg, UnitsNum(f, c, e), UnitsDen(f, e), e - f.etiny);
  }

  lemma StoredInRange(sh: Shape, f: Format, x: Number)
    requires Encodes(sh, f) && IsNumber(f, x)
    ensures InRange(sh, Stored(f, x))
  {
    hide Pow;
    ThousandsAreTens(sh.declets);
    PowAdd(10, 1, 3 * sh.declets);
    SmallPowers();
    PowMono(1000, 0, sh.declets);
    ThousandsPositive(sh.declets);
  }

  lemma EncodedIsCanonical(sh: Shape, d: Decoded)
    requires sh.Valid() && InRange(sh, d)
    ensures IsCanonical(sh, Encode(sh, d))
  {
    hide Pow, Decode, Encode, InRange;
    DecodeEncode(sh, d);
  }

  /* ---- The bias ---- */

  /** Stored exponents count from Etiny in either format, so widening keeps sign, coefficient and exponent. */
  lemma BiasIsEtiny(f: Format, g: Format, x: Number, d: Decoded)
    requires f.Valid() && Holds(f, x) && d.Num? && g.etiny <= f.etiny
    ensures var y := Stored(f, x); y.Num? && y.bexp + f.etiny == x.exp && y.neg == x.neg && y.coeff == x.coeff
    ensures var w := Rebased(f, g, d);
      w.Num? && w.bexp + g.etiny == d.bexp + f.etiny && w.neg == d.neg && w.coeff == d.coeff
  {}

  /** A number of at most three digits is one declet. */
  lemma {:induction false} OneDeclet(c: nat, n: nat)
    requires c < 1000 && n > 0
    ensures PackCont(c, n) == ToDeclet(c)
  {
    hide Pow, PackCont, ToDeclet;
    Nothing(c, 0);
    PackNext(c, n - 1);
    if n == 1 {
      DivModUnique(c, 1000, 0, c);
    } else {
      OneDeclet(c, n - 1);
      AtLeastThousand(n - 1);
      DivModUnique(c, Pow(1000, n - 1), 0, c);
      SmallDigitsPacked(0, 0, 0);
    }
  }

  lemma AtLeastThousand(n: nat)
    requires n > 0
    ensures Pow(1000, n) >= 1000
  {
    PowMono(1000, 1, n);
    assert Pow(1000, 1) == 1000;
  }

  /** Three small digits are packed as they are, with a bit left out of each but the last. */
  lemma SmallDigitsPacked(d2: nat, d1: nat, d0: nat)
    requires d2 < 8 && d1 < 8 && d0 < 8
    ensures 100 * d2 + 10 * d1 + d0 < 1000 && ToDeclet(100 * d2 + 10 * d1 + d0) == 128 * d2 + 16 * d1 + d0
  {
    hide Three, Bits3, Unpack;
    ThreeBin(Triple(d2, d1, d0));
    SmallRow(Triple(d2, d1, d0));
  }

  lemma SmallRow(t: Triple)
    requires t.d2 < 8 && t.d1 < 8 && t.d0 < 8
    ensures Join(Bits3(t)) == 128 * t.d2 + 16 * t.d1 + t.d0
  {}

  /** The number 1 is 22380000 00000001 as a decDouble, and -12 is A2380000 00000012. */
  lemma OneEncoded()
    ensures Encode(DOUBLE_SHAPE, Stored(DOUBLE, Finite(false, 1, 0))) == 0x2238_0000_0000_0001
    ensures Encode(DOUBLE_SHAPE, Stored(DOUBLE, Finite(true, 12, 0))) == 0xA238_0000_0000_0012
  {
    hide Pow, PackCont, ToDeclet;
    PowersForDouble();
    OneDeclet(1, 5);
    OneDeclet(12, 5);
    SmallDigitsPacked(0, 0, 1);
    SmallDigitsPacked(0, 1, 2);
    AtLeastThousand(5);
    DivModUnique(1, Pow(1000, 5), 0, 1);
    DivModUnique(12, Pow(1000, 5), 0, 12);
  }

  /* ---- Rounding once in two steps ---- */

  /** What the wider format stores with round-for-reround narrows, in any mode, to the exact value rounded once,
      with its conditions, unless both formats have the same least quantum and the value is cut off there. */
  lemma NarrowReround(sh: Shape, f: Format, wide: Shape, g: Format, mode: Mode, neg: bool, a: nat, b: nat, ideal: int)
    requires Wider(sh, f, wide, g) && b > 0
    ensures var w, o := RoundExact(g, ZeroFiveUp, neg, a, b, ideal).num, RoundedOnce(f, g, mode, neg, a, b, ideal);
      Narrowed(sh, f, g, mode, Stored(g, w)) == (Stored(f, o.num), o.raised) <==> !LostBelow(f, g, a, b)
  {
    hide RoundExact, RoundScaled, RoundedOnce, LostBelow, Pow;
    RoundTwice(f, g, mode, neg, a, b, ideal);
    ResultHolds(g, ZeroFiveUp, neg, a, b, ideal);
    if LostBelow(f, g, a, b) { LostInexact(f, g, mode, neg, a, b, ideal); }
  }

  /** Of a decQuad computed with round-for-reround, decFloatFromWider makes the correctly rounded decDouble,
      always. */
  lemma QuadToDouble(mode: Mode, neg: bool, a: nat, b: nat, ideal: int)
    requires b > 0
    ensures var w := RoundExact(QUAD, ZeroFiveUp, neg, a, b, ideal).num;
      var o := RoundedOnce(DOUBLE, QUAD, mode, neg, a, b, ideal);
      Narrowed(DOUBLE_SHAPE, DOUBLE, QUAD, mode, Stored(QUAD, w)) == (Stored(DOUBLE, o.num), o.raised)
  {
    hide RoundExact, RoundScaled, Narrowed, RoundedOnce, Stored;
    DoubleToQuad();
    NarrowReround(DOUBLE_SHAPE, DOUBLE, QUAD_SHAPE, QUAD, mode, neg, a, b, ideal);
  }

  /* ---- There and back ---- */

  /** Narrowing what was widened gives back sign, exponent and coefficient, infinity or payload, whatever
      the rounding mode, and raises nothing. */
  lemma NarrowUndoesWiden(sh: Shape, f: Format, wide: Shape, g: Format, mode: Mode, d: Decoded)
    requires Wider(sh, f, wide, g) && InRange(sh, d)
    ensures Narrowed(sh, f, g, mode, Rebased(f, g, d)) == (d, {})
  {
    hide Pow, RoundScaled;
    match d {
      case Num(neg, bexp, coeff) =>
        ThousandsAreTens(sh.declets);
        TenMore(3 * sh.declets);
        HeldExactly(f, mode, neg, coeff, bexp + f.etiny);
      case Inf(_) =>
      case Nan(_, _, payload) =>
        DivModUnique(payload, Pow(1000, sh.declets), 0, payload);
    }
  }

  /** Widening and then narrowing returns every canonical encoding, word for word, and raises nothing. */
  method WidenAndNarrow(sh: Shape, f: Format, wide: Shape, g: Format, df: array<nat>, ctx: DecContext)
    returns (back: array<nat>)
    requires Wider(sh, f, wide, g) && IsEncoding(sh, df[..])
    modifies ctx`status
    ensures ctx.status == old(ctx.status) && Decode(sh, Whole(back[..])) == Decode(sh, Whole(df[..]))
    ensures IsCanonical(sh, Whole(df[..])) ==> back[..] == df[..]
  {
    hide Whole, Decode, Encode, Narrowed, Rebased, InRange, Pow;
    WordsHold(sh, df[..]);
    EncodeDecode(sh, Whole(df[..]));
    NarrowUndoesWiden(sh, f, wide, g, ctx.round, Decode(sh, Whole(df[..])));
    var w := ToWider(sh, f, wide, g, df);
    back := FromWider(sh, f, wide, g, w, ctx);
    if IsCanonical(sh, Whole(df[..])) { WholeUnique(back[..], df[..]); }
  }
}
