/** decFloatFromBCD, decFloatToBCD, decCanonical and the conversions to and from the wider format, on
    the words of an encoding. */
module Interchange {
  import opened Arith
  import opened Digits
  import opened Declet
  import opened Canonicalize
  import opened Encoding

  /** The widths of a format's fields: 1 + 5 + econl + 10*declets bits in all. */
  datatype Shape = Shape(words: nat, declets: nat, econl: nat) {
    ghost predicate Valid() {
      words > 0 && declets > 0 && 2 <= econl <= 26 && 32 * words == 6 + econl + 10 * declets
    }

    const digits: nat := 3 * declets + 1
  }

  const DOUBLE_SHAPE: Shape := Shape(2, 5, 8)
  const QUAD_SHAPE: Shape := Shape(4, 11, 12)

  /* ---- The combination field ---- */

  /** DECCOMBFROM, from the top two bits of the exponent and the leading digit. */
  function CombFrom(exp: nat, msd: nat): (comb: nat)
    requires exp <= 2 && msd <= 9
    ensures comb < 30
  {
    if msd < 8 then exp * 8 + msd else 24 + exp * 2 + (msd - 8)
  }

  /** DECCOMBEXP, for a finite number. */
  function CombExp(comb: nat): (exp: nat)
    requires comb < 30
    ensures exp <= 2
  {
    if comb < 24 then comb / 8 else (comb - 24) / 2
  }

  /** DECCOMBMSD */
  function CombMsd(comb: nat): (msd: nat)
    requires comb < 30
    ensures msd <= 9
  {
    if comb < 24 then comb % 8 else 8 + comb % 2
  }

  lemma CombRoundTrip(exp: nat, msd: nat, comb: nat)
    requires exp <= 2 && msd <= 9 && comb < 30
    ensures CombExp(CombFrom(exp, msd)) == exp && CombMsd(CombFrom(exp, msd)) == msd
    ensures CombFrom(CombExp(comb), CombMsd(comb)) == comb
  {}

  /* ---- Decoding and encoding ---- */

  datatype Decoded = Num(neg: bool, bexp: nat, coeff: nat) | Inf(neg: bool)
      | Nan(neg: bool, signalling: bool, payload: nat)

  ghost predicate InRange(sh: Shape, d: Decoded) {
    match d
    case Num(_, bexp, coeff) => bexp < 3 * Pow(2, sh.econl) && coeff < 10 * Pow(1000, sh.declets)
    case Inf(_) => true
    case Nan(_, _, payload) => payload < Pow(1000, sh.declets)
  }

  /** hi in units of p, and low below it. */
  function Above(hi: nat, p: nat, low: nat): nat {
    MulMono(0, hi, p);
    hi * p + low
  }

  lemma AboveParts(hi: nat, p: nat, low: nat, n: nat)
    requires p > 0 && low < p
    ensures Above(hi, p, low) / p == hi && Above(hi, p, low) % p == low
    ensures hi < n ==> Above(hi, p, low) < n * p
  {
    MulMono(0, hi, p);
    DivModUnique(hi * p + low, p, hi, low);
    if hi < n {
      MulMono(hi + 1, n, p);
      assert (hi + 1) * p == hi * p + p;
    }
  }

  lemma AboveSplit(x: nat, p: nat, n: nat)
    requires p > 0
    ensures x / p >= 0 && Above(x / p, p, x % p) == x && x % p < p
    ensures x < n * p ==> x / p < n
  {
    DivBounds(x, p);
    QuotientNat(x, p);
    if x < n * p { DivLt(x, p, n); }
  }

  /** What the fields above the declets (sign, combination, exponent continuation) and the coefficient
      continuation mean. */
  function DecodeFields(sh: Shape, top: nat, cont: nat): Decoded
    requires sh.econl >= 2
  {
    var e := Pow(2, sh.econl);
    var comb, econ := top / e, top % e;
    var neg := comb / 32 % 2 == 1;
    if comb % 32 == 30 then Inf(neg)
    else if comb % 32 == 31 then Nan(neg, econ >= Pow(2, sh.econl - 1), cont)
    else
      Num(neg, Above(CombExp(comb % 32), e, econ), Above(CombMsd(comb % 32), Pow(1000, sh.declets), cont))
  }

  function Decode(sh: Shape, v: nat): Decoded
    requires sh.econl >= 2
  {
    DecodeFields(sh, v / Pow(1024, sh.declets), ContValue(v, sh.declets))
  }

  function SignBit(neg: bool): nat { if neg then 32 else 0 }

  /** The fields above the declets. */
  function TopOf(sh: Shape, d: Decoded): nat
    requires sh.econl >= 2
  {
    var e := Pow(2, sh.econl);
    match d
    case Num(neg, bexp, coeff) =>
      var exp, msd := bexp / e, coeff / Pow(1000, sh.declets);
      if exp <= 2 && msd <= 9 then Above(SignBit(neg) + CombFrom(exp, msd), e, bexp % e) else 0
    case Inf(neg) => Above(SignBit(neg) + 30, e, 0)
    case Nan(neg, signalling, _) => Above(SignBit(neg) + 31, e, if signalling then Pow(2, sh.econl - 1) else 0)
  }

  function ContOf(d: Decoded): nat {
    match d
    case Num(_, _, coeff) => coeff
    case Inf(_) => 0
    case Nan(_, _, payload) => payload
  }

  function Encode(sh: Shape, d: Decoded): nat
    requires sh.econl >= 2
  {
    Above(TopOf(sh, d), Pow(1024, sh.declets), PackCont(ContOf(d), sh.declets))
  }

  /* ---- Round trips ---- */

  lemma SignOfComb(neg: bool, comb: nat)
    requires comb < 32
    ensures var c := SignBit(neg) + comb; c % 32 == comb && (c / 32 % 2 == 1 <==> neg) && c < 64
  {}

  lemma SignAndComb(comb: nat)
    requires comb < 64
    ensures SignBit(comb / 32 % 2 == 1) + comb % 32 == comb && comb % 32 < 32
  {}

  lemma HalfExponent(n: nat)
    requires n > 0
    ensures Pow(2, n) == 2 * Pow(2, n - 1)
  {}

  lemma DecodeTop(sh: Shape, d: Decoded)
    requires sh.Valid() && InRange(sh, d)
    ensures DecodeFields(sh, TopOf(sh, d), ContOf(d) % Pow(1000, sh.declets)) == d
  {
    hide Pow, CombFrom, CombExp, CombMsd, Above, SignBit;
    var e, t := Pow(2, sh.econl), Pow(1000, sh.declets);
    HalfExponent(sh.econl);
    match d
    case Num(neg, bexp, coeff) =>
      AboveSplit(bexp, e, 3);
      AboveSplit(coeff, t, 10);
      CombRoundTrip(bexp / e, coeff / t, 0);
      SignOfComb(neg, CombFrom(bexp / e, coeff / t));
      AboveParts(SignBit(neg) + CombFrom(bexp / e, coeff / t), e, bexp % e, 64);
    case Inf(neg) =>
      SignOfComb(neg, 30);
      AboveParts(SignBit(neg) + 30, e, 0, 64);
    case Nan(neg, signalling, payload) =>
      SignOfComb(neg, 31);
      AboveParts(SignBit(neg) + 31, e, if signalling then Pow(2, sh.econl - 1) else 0, 64);
      DivModUnique(payload, t, 0, payload);
  }

  /** Decoding what was encoded gives back sign, exponent and coefficient, infinity or NaN payload. */
  lemma DecodeEncode(sh: Shape, d: Decoded)
    requires sh.Valid() && InRange(sh, d)
    ensures Decode(sh, Encode(sh, d)) == d
  {
    DecodeTop(sh, d);
    hide Pow, TopOf, ContOf, DecodeFields, PackCont, ContValue, InRange;
    var n := sh.declets;
    PackBound(ContOf(d), n);
    AboveParts(TopOf(sh, d), Pow(1024, n), PackCont(ContOf(d), n), 0);
    ContOfSum(TopOf(sh, d), PackCont(ContOf(d), n), n, n);
    ContOfPack(ContOf(d), n);
  }

  function HighPart(c: nat, n: nat): nat {
    QuotientNat(c, Pow(1000, n));
    c / Pow(1000, n)
  }

  lemma EncodeTop(sh: Shape, top: nat, cont: nat)
    requires sh.Valid() && top < 64 * Pow(2, sh.econl) && cont < Pow(1000, sh.declets)
    ensures var d := DecodeFields(sh, top, cont);
      && InRange(sh, d)
      && (d.Num? ==>
          TopOf(sh, d) == top && ContOf(d) == Above(HighPart(ContOf(d), sh.declets), Pow(1000, sh.declets), cont))
  {
    hide Pow, CombFrom, CombExp, CombMsd, Above, SignBit;
    var e, t := Pow(2, sh.econl), Pow(1000, sh.declets);
    AboveSplit(top, e, 64);
    var comb, econ := top / e, top % e;
    SignAndComb(comb);
    if comb % 32 < 30 {
      var exp, msd := CombExp(comb % 32), CombMsd(comb % 32);
      CombRoundTrip(0, 0, comb % 32);
      AboveParts(exp, e, econ, 3);
      AboveParts(msd, t, cont, 10);
    }
  }

  /** Encoding what was decoded from a finite encoding keeps every bit above the declets and makes the
      declets canonical. */
  lemma EncodeDecode(sh: Shape, v: nat)
    requires sh.Valid() && v / Pow(1024, sh.declets) < 64 * Pow(2, sh.econl)
    ensures InRange(sh, Decode(sh, v))
    ensures Decode(sh, v).Num? ==> Encode(sh, Decode(sh, v)) == Replaced(v, sh.declets, Canonical)
  {
    var n := sh.declets;
    hide Pow, TopOf, ContOf, DecodeFields, PackCont, ContValue, InRange, HighPart;
    ContBound(v, n);
    EncodeTop(sh, v / Pow(1024, n), ContValue(v, n));
    var d := Decode(sh, v);
    if d.Num? {
      PackOfSum(HighPart(ContOf(d), n), ContValue(v, n), n, n);
      PackOfCont(v, n);
    }
  }

  /** Making canonical keeps the number and is idempotent. */
  lemma CanonicalKeepsNumber(sh: Shape, v: nat)
    requires sh.Valid() && v / Pow(1024, sh.declets) < 64 * Pow(2, sh.econl) && Decode(sh, v).Num?
    ensures var c := Replaced(v, sh.declets, Canonical);
      Decode(sh, c) == Decode(sh, v) && c / Pow(1024, sh.declets) == v / Pow(1024, sh.declets)
      && Replaced(c, sh.declets, Canonical) == c
  {
    hide Pow, Decode, Encode, Canonical;
    EncodeDecode(sh, v);
    DecodeEncode(sh, Decode(sh, v));
    var c := Replaced(v, sh.declets, Canonical);
    OnlyDeclets();
    ReplacedLowBound(v, sh.declets, Canonical);
    DivModUnique(c, Pow(1024, sh.declets), v / Pow(1024, sh.declets), ReplacedLow(v, sh.declets, Canonical));
    EncodeDecode(sh, c);
  }

  /* ---- The top word ---- */

  ghost predicate IsEncoding(sh: Shape, s: seq<nat>) {
    |s| == sh.words && AreWords(s)
  }

  /** The fields above the declets, read from the top word. */
  lemma TopWord(sh: Shape, s: seq<nat>)
    requires sh.Valid() && IsEncoding(sh, s)
    ensures Whole(s) / Pow(1024, sh.declets) == s[0] / Pow(2, 26 - sh.econl)
    ensures Whole(s) / Pow(1024, sh.declets) < 64 * Pow(2, sh.econl)
    ensures Pow(1024, sh.declets) == Pow(TWO32, sh.words - 1) * Pow(2, 26 - sh.econl)
    ensures Pow(2, sh.econl) * Pow(2, 26 - sh.econl) == 0x400_0000
  {
    hide Whole, Pow;
    RestOf(s, 0, 26 - sh.econl, sh.declets);
    assert Whole(s[..0]) == 0 by { NoWords(s); }
    BinaryPowers();
    PowAdd(2, sh.econl, 26 - sh.econl);
    PowAdd(2, 26, 6);
    SixtyFour();
    MulAssoc(64, Pow(2, sh.econl), Pow(2, 26 - sh.econl));
    DivLt(s[0], Pow(2, 26 - sh.econl), 64 * Pow(2, sh.econl));
  }

  lemma NoWords(s: seq<nat>)
    ensures Whole(s[..0]) == 0
  {}

  lemma SixtyFour()
    ensures Pow(2, 6) == 64
  {
    assert Pow(2, 1) == 2 && Pow(2, 2) == 4 && Pow(2, 3) == 8;
    PowAdd(2, 3, 3);
  }

  /** The combination field and the exponent continuation of the top word. */
  lemma FieldsOfWord(x: nat, e: nat, q: nat)
    requires e > 0 && q > 0 && e * q == 0x400_0000
    ensures x / q / e == x / 0x400_0000 && x / q % e == x % 0x400_0000 / q
  {
    hide *;
    assert q * e == e * q;
    NestedDivision(x, q, e);
    RemainderField(x, q, e, 0x400_0000);
  }

  lemma RemainderField(x: nat, q: nat, e: nat, m: nat)
    requires e > 0 && q > 0 && e * q == m && q * e == m && m > 0
    ensures x / q % e == x % m / q
  {
    hide *;
    QuotientNat(x, m);
    DivBounds(x, m);
    QuotientNat(x % m, q);
    DivBounds(x % m, q);
    DivLt(x % m, q, e);
    FieldArith(x / m, q, e, m, x % m / q, x % m % q, x);
    DivModUnique(x, q, x / m * e + x % m / q, x % m % q);
    DivModUnique(x / m * e + x % m / q, e, x / m, x % m / q);
  }

  lemma FieldArith(h: nat, q: nat, e: nat, m: nat, c: nat, r: nat, x: nat)
    requires q * e == m && x == h * m + (c * q + r) && c < e
    ensures x == (h * e + c) * q + r && c < e
  {
    assert (h * e + c) * q == h * e * q + c * q;
    MulAssoc(h, e, q);
    assert e * q == q * e;
  }

  /* ---- decFloatToBCD ---- */

  /** The exponent of a finite number, or a special value with the bit that follows its combination field:
      the selector of a NaN, and of no meaning for an infinity. */
  datatype Header = BiasedExp(exp: nat) | InfHeader(selector: bool) | NanHeader(signalling: bool)

  /** The first bit of the exponent continuation, 0x02000000 of the top word. */
  predicate Selected(word: nat) {
    word / 0x200_0000 % 2 == 1
  }

  ghost predicate HeaderOf(d: Decoded, neg: bool, h: Header) {
    && d.neg == neg
    && match d
       case Num(_, bexp, _) => h == BiasedExp(bexp)
       case Inf(_) => h.InfHeader?
       case Nan(_, signalling, _) => h == NanHeader(signalling)
  }

  /** Sign, exponent or special, and the leading digit (zero for a special), from the top word. */
  method ReadHeader(sh: Shape, df: array<nat>) returns (neg: bool, h: Header, msd: nat)
    requires sh.Valid() && IsEncoding(sh, df[..])
    ensures HeaderOf(Decode(sh, Whole(df[..])), neg, h) && msd <= 9
    ensures h.InfHeader? ==> h.selector == Selected(df[0])
    ensures ContOf(Decode(sh, Whole(df[..]))) ==
      if h.InfHeader? then 0 else Above(msd, Pow(1000, sh.declets), ContValue(Whole(df[..]), sh.declets))
    ensures !h.BiasedExp? ==> msd == 0
  {
    hide Whole, Pow, ContValue, Above;
    TopWord(sh, df[..]);
    FieldsOfWord(df[0], Pow(2, sh.econl), Pow(2, 26 - sh.econl));
    HalfExponent(sh.econl);
    var comb := df[0] / 0x400_0000;
    var econ := df[0] % 0x400_0000 / Pow(2, 26 - sh.econl);
    neg, msd := comb / 32 % 2 == 1, 0;
    AboveZero(Pow(1000, sh.declets), ContValue(Whole(df[..]), sh.declets));
    if comb % 32 == 30 {
      h := InfHeader(Selected(df[0]));
    } else if comb % 32 == 31 {
      h := NanHeader(econ >= Pow(2, sh.econl - 1));
    } else {
      h := BiasedExp(Above(CombExp(comb % 32), Pow(2, sh.econl), econ));
      msd := CombMsd(comb % 32);
    }
  }

  lemma AboveZero(p: nat, low: nat)
    ensures Above(0, p, low) == low
  {}

  /** decFloatToBCD: all zeros for an infinity, and no leading digit for a NaN. */
  method ToBcd(sh: Shape, df: array<nat>) returns (bcdar: array<nat>, neg: bool, h: Header)
    requires sh.Valid() && IsEncoding(sh, df[..])
    ensures HeaderOf(Decode(sh, Whole(df[..])), neg, h) && (h.InfHeader? ==> h.selector == Selected(df[0]))
    ensures fresh(bcdar) && bcdar.Length == sh.digits && AreDigits(bcdar[..])
    ensures Val(bcdar[..]) == ContOf(Decode(sh, Whole(df[..])))
  {
    hide Whole, Pow, ContValue, Above, Decode, Val;
    var msd;
    neg, h, msd := ReadHeader(sh, df);
    bcdar := new nat[sh.digits](_ => 0);
    if h.InfHeader? {
      ValZeros(bcdar[..]);
      return;
    }
    ReadDeclets(sh, df, bcdar);
    ghost var tail := bcdar[1..];
    bcdar[0] := msd;
    assert bcdar[..] == [msd] + tail;
    ValPrepend(msd, tail);
    ThousandsAreTens(sh.declets);
    AboveIs(msd, Pow(1000, sh.declets), Val(tail));
  }

  lemma AboveIs(hi: nat, p: nat, low: nat)
    ensures Above(hi, p, low) == hi * p + low
  {}

  /** The declets, decoded three digits at a time into bcdar[1..]. */
  method ReadDeclets(sh: Shape, df: array<nat>, bcdar: array<nat>)
    requires sh.Valid() && IsEncoding(sh, df[..]) && bcdar.Length == sh.digits && df != bcdar
    modifies bcdar
    ensures AreDigits(bcdar[1..]) && Val(bcdar[1..]) == ContValue(Whole(df[..]), sh.declets)
  {
    hide Whole, Pow, ContValue, Val, AtBit, DecletAt, FromDeclet;
    ghost var v := Whole(df[..]);
    var inword: nat, uoff: nat := df.Length - 1, 0;
    var encode := df[inword];
    var k: nat := 0;
    StartDeclets(df[..], v, encode);
    NoDigits(v, bcdar[sh.digits..]);
    while k < sh.declets
      invariant k <= sh.declets && Whole(df[..]) == v && AtBit(df[..], inword, uoff, encode, k)
      invariant AreDigits(bcdar[sh.digits - 3 * k..]) && Val(bcdar[sh.digits - 3 * k..]) == ContValue(v, k)
    {
      var dpd;
      dpd, inword, uoff, encode := ReadDeclet(df, inword, uoff, encode, k);
      var t := Unpack(dpd);
      ghost var tail := bcdar[sh.digits - 3 * k..];
      var at := sh.digits - 3 * k - 3;
      bcdar[at], bcdar[at + 1], bcdar[at + 2] := t.d2, t.d1, t.d0;
      assert bcdar[at..] == [t.d2, t.d1, t.d0] + tail;
      ThreeMoreDigits(v, k, t, dpd, tail);
      k := k + 1;
    }
    assert bcdar[1..] == bcdar[sh.digits - 3 * sh.declets..];
  }

  lemma NoDigits(v: nat, s: seq<nat>)
    requires s == []
    ensures AreDigits(s) && Val(s) == ContValue(v, 0)
  {}

  lemma ThreeMoreDigits(v: nat, k: nat, t: Triple, dpd: nat, tail: seq<nat>)
    requires dpd == DecletAt(v, k) && t == Unpack(dpd) && |tail| == 3 * k && AreDigits(tail)
    requires Val(tail) == ContValue(v, k)
    ensures AreDigits([t.d2, t.d1, t.d0] + tail) && Val([t.d2, t.d1, t.d0] + tail) == ContValue(v, k + 1)
  {
    ThreeValue(t);
    assert AreThree(t);
    hide Pow, ContValue, Val, DecletAt, Unpack;
    ValConcat([t.d2, t.d1, t.d0], tail);
    ThousandsAreTens(k);
    ContNext(v, k);
  }

  lemma ThreeValue(t: Triple)
    requires AreThree(t)
    ensures Val([t.d2, t.d1, t.d0]) == Bin(t)
  {
    assert [t.d2, t.d1, t.d0] == [] + [t.d2] + [t.d1] + [t.d0];
    ValAppend([], t.d2);
    ValAppend([] + [t.d2], t.d1);
    ValAppend([] + [t.d2] + [t.d1], t.d0);
  }

  /* ---- decFloatFromBCD ---- */

  /** What the encoder is asked for: the leading digit is ignored for a NaN. */
  function Asked(neg: bool, h: Header, c: nat, declets: nat): Decoded {
    match h
    case BiasedExp(bexp) => Num(neg, bexp, c)
    case InfHeader(_) => Inf(neg)
    case NanHeader(signalling) => Nan(neg, signalling, c % Pow(1000, declets))
  }

  /** The fields above the declets that are laid out for it: an infinity keeps the bit it is asked for with. */
  function AskedTop(sh: Shape, neg: bool, h: Header, c: nat): nat
    requires sh.econl >= 2
  {
    if h.InfHeader? then
      Above(SignBit(neg) + 30, Pow(2, sh.econl), if h.selector then Pow(2, sh.econl - 1) else 0)
    else
      TopOf(sh, Asked(neg, h, c, sh.declets))
  }

  lemma AskedTopIs(sh: Shape, neg: bool, h: Header, c: nat)
    requires sh.econl >= 2 && (h.InfHeader? ==> !h.selector)
    ensures AskedTop(sh, neg, h, c) == TopOf(sh, Asked(neg, h, c, sh.declets))
  {}

  /** The fields above the declets, at the top of the first word. */
  method TopField(sh: Shape, neg: bool, h: Header, ghost c: nat, msd: nat) returns (top: nat)
    requires sh.Valid() && (h.BiasedExp? ==> h.exp < 3 * Pow(2, sh.econl))
    requires c < 10 * Pow(1000, sh.declets) && msd == c / Pow(1000, sh.declets)
    ensures top == AskedTop(sh, neg, h, c) < 64 * Pow(2, sh.econl)
  {
    hide Pow, Above, CombFrom, SignBit;
    var e := Pow(2, sh.econl);
    HalfExponent(sh.econl);
    match h {
      case BiasedExp(bexp) =>
        DivLt(c, Pow(1000, sh.declets), 10);
        AboveSplit(bexp, e, 3);
        SignOfComb(neg, CombFrom(bexp / e, msd));
        AboveParts(SignBit(neg) + CombFrom(bexp / e, msd), e, bexp % e, 64);
        top := Above(SignBit(neg) + CombFrom(bexp / e, msd), e, bexp % e);
      case InfHeader(selector) =>
        SignOfComb(neg, 30);
        AboveParts(SignBit(neg) + 30, e, if selector then Pow(2, sh.econl - 1) else 0, 64);
        top := Above(SignBit(neg) + 30, e, if selector then Pow(2, sh.econl - 1) else 0);
      case NanHeader(signalling) =>
        SignOfComb(neg, 31);
        AboveParts(SignBit(neg) + 31, e, if signalling then Pow(2, sh.econl - 1) else 0, 64);
        top := Above(SignBit(neg) + 31, e, if signalling then Pow(2, sh.econl - 1) else 0);
    }
  }

  /** The encoding that is laid out: the declets are placed whatever the header says, for an infinity too. */
  function AskedWhole(sh: Shape, neg: bool, h: Header, c: nat): nat
    requires sh.econl >= 2
  {
    Above(AskedTop(sh, neg, h, c), Pow(1024, sh.declets), PackCont(c, sh.declets))
  }

  /** decFloatFromBCD */
  method FromBcd(sh: Shape, neg: bool, h: Header, bcdar: array<nat>) returns (df: array<nat>)
    requires sh.Valid() && bcdar.Length == sh.digits && AreDigits(bcdar[..])
    requires h.BiasedExp? ==> h.exp < 3 * Pow(2, sh.econl)
    ensures fresh(df) && IsEncoding(sh, df[..])
    ensures Whole(df[..]) == AskedWhole(sh, neg, h, Val(bcdar[..]))
  {
    hide Whole, Pow, Above, Val, AskedTop, PackCont;
    ghost var c := Val(bcdar[..]);
    LeadingDigitOf(sh, bcdar[..]);
    var top := TopField(sh, neg, h, c, bcdar[0]);
    df := new nat[sh.words](_ => 0);
    SetTop(sh, df, top);
    PlaceDeclets(sh, df, bcdar, top);
  }

  lemma LeadingDigitOf(sh: Shape, s: seq<nat>)
    requires |s| == sh.digits && AreDigits(s)
    ensures Val(s) < 10 * Pow(1000, sh.declets) && Val(s) / Pow(1000, sh.declets) == s[0]
  {
    hide Pow, Val;
    ThousandsAreTens(sh.declets);
    ValLeading(s);
    AboveIs(s[0], Pow(1000, sh.declets), Val(s[1..]));
    AboveParts(s[0], Pow(1000, sh.declets), Val(s[1..]), 10);
  }

  /** Writes the fields above the declets to an encoding that is all zeros. */
  method SetTop(sh: Shape, df: array<nat>, top: nat)
    requires sh.Valid() && df.Length == sh.words && (forall i :: 0 <= i < df.Length ==> df[i] == 0)
    requires top < 64 * Pow(2, sh.econl)
    modifies df
    ensures IsEncoding(sh, df[..]) && Whole(df[..]) == Above(top, Pow(1024, sh.declets), 0)
    ensures df[0] == top * Pow(2, 26 - sh.econl) && forall i :: 1 <= i < df.Length ==> df[i] == 0
  {
    hide Whole, Pow, Above;
    ghost var s := df[..];
    ZeroWhole(s);
    TopWord(sh, s);
    TopFits(top, Pow(2, sh.econl), Pow(2, 26 - sh.econl));
    df[0] := top * Pow(2, 26 - sh.econl);
    assert df[..] == s[0 := df[0]];
    WholeUpdate(s, 0, df[0]);
    AboveIs(top, Pow(1024, sh.declets), 0);
    SwapProduct(top, Pow(2, 26 - sh.econl), Pow(TWO32, sh.words - 1));
  }

  lemma SwapProduct(x: nat, y: nat, z: nat)
    ensures (x * y - 0) * z == x * (z * y)
  {
    MulAssoc(x, y, z);
    assert y * z == z * y;
  }

  lemma TopFits(top: nat, e: nat, q: nat)
    requires top < 64 * e && q > 0 && e * q == 0x400_0000
    ensures 0 <= top * q < TWO32
  {
    MulStrict(top, 64 * e, q);
    MulMono(0, top, q);
    MulAssoc(64, e, q);
  }

  lemma {:induction false} ZeroWhole(s: seq<nat>)
    requires forall i :: 0 <= i < |s| ==> s[i] == 0
    ensures Whole(s) == 0 && AreWords(s)
  {
    if |s| > 0 { ZeroWhole(s[..|s| - 1]); }
  }

  /** The declets, from the right, each from three digits. */
  method PlaceDeclets(sh: Shape, df: array<nat>, bcdar: array<nat>, ghost top: nat)
    requires sh.Valid() && IsEncoding(sh, df[..]) && Whole(df[..]) == Above(top, Pow(1024, sh.declets), 0)
    requires bcdar.Length == sh.digits && AreDigits(bcdar[..]) && df != bcdar
    modifies df
    ensures IsEncoding(sh, df[..])
    ensures Whole(df[..]) == Above(top, Pow(1024, sh.declets), PackCont(Val(bcdar[..]), sh.declets))
  {
    hide Whole, Pow, Above, Val, PackCont, AtBit, ToDeclet;
    ghost var c := Val(bcdar[..]);
    var inword: nat, uoff: nat := df.Length - 1, 0;
    var encode := df[inword];
    var k: nat := 0;
    StartDeclets(df[..], 0, encode);
    NothingPacked(c);
    while k < sh.declets
      invariant k <= sh.declets && df.Length == sh.words && bcdar[..] == old(bcdar[..])
      invariant AtBit(df[..], inword, uoff, encode, k)
      invariant Whole(df[..]) == Above(top, Pow(1024, sh.declets), PackCont(c, k))
    {
      var at := sh.digits - 3 * k - 3;
      var dpd := Pack(Triple(bcdar[at], bcdar[at + 1], bcdar[at + 2]));
      DecletOfDigits(bcdar[..], k, at);
      inword, uoff, encode := PlaceDeclet(df, inword, uoff, encode, dpd, k, top, c, sh.declets);
      k := k + 1;
    }
    WordsOf(df[..], inword, uoff, encode, k);
  }

  lemma NothingPacked(c: nat)
    ensures PackCont(c, 0) == 0
  {}

  /** The three digits of the kth declet. */
  lemma DecletOfDigits(s: seq<nat>, k: nat, at: nat)
    requires AreDigits(s) && at + 3 + 3 * k == |s|
    ensures Pack(Triple(s[at], s[at + 1], s[at + 2])) == ToDeclet(DigitAt(1000, Val(s), k))
  {
    hide Pow, Val, Pack;
    var t := Triple(s[at], s[at + 1], s[at + 2]);
    ThousandsAreTens(k);
    CutValue(s, at + 3);
    var u := s[..at + 3];
    CutValue(u, at);
    assert u[at..] == [s[at], s[at + 1], s[at + 2]];
    ThreeValue(t);
    SmallPowers();
    ThreeBin(t);
  }

  /** One declet put where there are zeros. */
  method PlaceDeclet(df: array<nat>, inword0: nat, uoff0: nat, encode0: nat, dpd: nat, ghost k: nat, ghost top: nat,
                     ghost c: nat, ghost n: nat)
    returns (inword: nat, uoff: nat, encode: nat)
    requires k < n && 10 * n <= 32 * df.Length && AtBit(df[..], inword0, uoff0, encode0, k) && dpd < 1024
    requires dpd == ToDeclet(DigitAt(1000, c, k)) && Whole(df[..]) == Above(top, Pow(1024, n), PackCont(c, k))
    modifies df
    ensures AtBit(df[..], inword, uoff, encode, k + 1) && Whole(df[..]) == Above(top, Pow(1024, n), PackCont(c, k + 1))
  {
    hide Whole, Pow, Above, PackCont, AtBit, ToDeclet, DecletAt, DigitAt;
    var zeros;
    zeros, inword, uoff, encode := ReadDeclet(df, inword0, uoff0, encode0, k);
    StillZero(top, c, n, k);
    encode := WriteDeclet(df, inword, uoff, encode, dpd, k);
    PackNext(c, k);
    AboveIs(top, Pow(1024, n), PackCont(c, k));
    AboveIs(top, Pow(1024, n), PackCont(c, k + 1));
  }

  lemma StillZero(top: nat, c: nat, n: nat, k: nat)
    requires k < n
    ensures DecletAt(Above(top, Pow(1024, n), PackCont(c, k)), k) == 0
  {
    hide Pow, PackCont;
    PackBound(c, k);
    DigitBelow(1024, top, PackCont(c, k), n, k);
    AboveIs(top, Pow(1024, n), PackCont(c, k));
    DecletIsDigit(Above(top, Pow(1024, n), PackCont(c, k)), k);
    DivModUnique(PackCont(c, k), Pow(1024, k), 0, PackCont(c, k));
    hide Above;
  }

  /* ---- decCanonical ---- */

  /** decCanonical, in place: an infinity is cleaned, a NaN loses all exponent bits but its selector, and
      every declet becomes canonical. */
  method DecCanonical(sh: Shape, df: array<nat>)
    requires sh.Valid() && IsEncoding(sh, df[..])
    modifies df
    ensures IsEncoding(sh, df[..]) && Whole(df[..]) == Encode(sh, Decode(sh, old(Whole(df[..]))))
    ensures var v := old(Whole(df[..])); Decode(sh, v).Num? ==> Whole(df[..]) == Replaced(v, sh.declets, Canonical)
  {
    hide Whole, Pow, Decode, Encode, Replaced, Canonical, ContOf, TopOf, InRange;
    ghost var v := Whole(df[..]);
    WordsHold(sh, df[..]);
    EncodeDecode(sh, v);
    var neg, h, msd := ReadHeader(sh, df);
    match h {
      case BiasedExp(_) =>
        CanonicalDeclets(df, sh.declets);
      case InfHeader(_) =>
        CleanInfinity(sh, df, neg);
      case NanHeader(signalling) =>
        CanonicalNan(sh, df, neg, signalling);
    }
  }

  method CanonicalNan(sh: Shape, df: array<nat>, ghost neg: bool, ghost signalling: bool)
    requires sh.Valid() && IsEncoding(sh, df[..]) && Decode(sh, Whole(df[..])).Nan?
    requires HeaderOf(Decode(sh, Whole(df[..])), neg, NanHeader(signalling))
    modifies df
    ensures IsEncoding(sh, df[..]) && Whole(df[..]) == Encode(sh, Decode(sh, old(Whole(df[..]))))
  {
    hide Whole, Pow, Decode, Encode, Replaced, Canonical, TopOf, Above, ContValue;
    ghost var v := Whole(df[..]);
    NanOf(sh, v, neg, signalling);
    CleanNan(sh, df, neg, signalling);
    ghost var w := Whole(df[..]);
    CanonicalDeclets(df, sh.declets);
    NanEncoded(sh, v, w, neg, signalling);
  }

  lemma NanOf(sh: Shape, v: nat, neg: bool, signalling: bool)
    requires sh.Valid() && Decode(sh, v).Nan? && HeaderOf(Decode(sh, v), neg, NanHeader(signalling))
    ensures Decode(sh, v) == Nan(neg, signalling, ContValue(v, sh.declets))
  {
    hide Pow, ContValue, Above, CombExp, CombMsd;
  }

  lemma WordsHold(sh: Shape, s: seq<nat>)
    requires sh.Valid() && IsEncoding(sh, s)
    ensures Whole(s) / Pow(1024, sh.declets) < 64 * Pow(2, sh.econl)
  {
    hide *;
    TopWord(sh, s);
  }

  /** decInfinity */
  method CleanInfinity(sh: Shape, df: array<nat>, neg: bool)
    requires sh.Valid() && IsEncoding(sh, df[..])
    modifies df
    ensures IsEncoding(sh, df[..]) && Whole(df[..]) == Encode(sh, Inf(neg))
  {
    hide Whole, Pow, Encode, Above, TopOf, AskedTop;
    ThousandsPositive(sh.declets);
    AskedTopIs(sh, neg, InfHeader(false), 0);
    var top := TopField(sh, neg, InfHeader(false), 0, 0);
    FillWords(df);
    SetTop(sh, df, top);
    InfinityEncoded(sh, neg, top);
  }

  lemma ThousandsPositive(n: nat)
    ensures 0 < 10 * Pow(1000, n) && 0 == 0 / Pow(1000, n)
  {}

  /** Clears the exponent continuation of a NaN, except for the bit that says whether it signals. */
  method CleanNan(sh: Shape, df: array<nat>, ghost neg: bool, ghost signalling: bool)
    requires sh.Valid() && IsEncoding(sh, df[..]) && Decode(sh, Whole(df[..])).Nan?
    requires HeaderOf(Decode(sh, Whole(df[..])), neg, NanHeader(signalling))
    modifies df
    ensures IsEncoding(sh, df[..])
    ensures var t := Pow(1024, sh.declets);
      Whole(df[..]) == Above(TopOf(sh, Nan(neg, signalling, 0)), t, old(Whole(df[..])) % t)
  {
    hide Whole, Pow, Above, ContValue;
    ghost var s, v := df[..], Whole(df[..]);
    ghost var q, t := Pow(2, 26 - sh.econl), Pow(1024, sh.declets);
    TopWord(sh, s);
    SelectorKept(sh, v / t, neg, signalling);
    ClearedBits(df[0], q, Pow(2, sh.econl - 1), v / t);
    df[0] := df[0] - df[0] % 0x200_0000 / Pow(2, 26 - sh.econl) * Pow(2, 26 - sh.econl);
    assert df[..] == s[0 := df[0]];
    WholeUpdate(s, 0, df[0]);
    NewTop(v, t, v / t % Pow(2, sh.econl - 1), q, Pow(TWO32, sh.words - 1), TopOf(sh, Nan(neg, signalling, 0)));
  }

  /** The fields of a NaN with its other exponent bits cleared. */
  lemma SelectorKept(sh: Shape, top: nat, neg: bool, signalling: bool)
    requires sh.Valid() && top < 64 * Pow(2, sh.econl)
    requires DecodeFields(sh, top, 0).Nan? && HeaderOf(DecodeFields(sh, top, 0), neg, NanHeader(signalling))
    ensures Pow(2, sh.econl - 1) > 0 && top % Pow(2, sh.econl - 1) <= top
    ensures TopOf(sh, Nan(neg, signalling, 0)) == top - top % Pow(2, sh.econl - 1)
    ensures Pow(2, sh.econl - 1) * Pow(2, 26 - sh.econl) == 0x200_0000
  {
    hide Pow, SignBit, TopOf, DecodeFields;
    HalfExponent(sh.econl);
    SelectorPower(sh);
    NanFields(sh, top, neg, signalling);
    SelectorBit(top, Pow(2, sh.econl), Pow(2, sh.econl - 1), signalling);
  }

  lemma NanFields(sh: Shape, top: nat, neg: bool, signalling: bool)
    requires sh.Valid() && top < 64 * Pow(2, sh.econl)
    requires DecodeFields(sh, top, 0).Nan? && HeaderOf(DecodeFields(sh, top, 0), neg, NanHeader(signalling))
    ensures signalling <==> top % Pow(2, sh.econl) >= Pow(2, sh.econl - 1)
    ensures TopOf(sh, Nan(neg, signalling, 0)) ==
      top / Pow(2, sh.econl) * Pow(2, sh.econl) + if signalling then Pow(2, sh.econl - 1) else 0
  {
    hide Pow, Above, SignBit, CombExp, CombMsd;
    var e := Pow(2, sh.econl);
    DivBounds(top, e);
    DivLt(top, e, 64);
    QuotientNat(top, e);
    SignAndComb(top / e);
    AboveIs(top / e, e, if signalling then Pow(2, sh.econl - 1) else 0);
  }

  lemma SelectorBit(top: nat, e: nat, f: nat, high: bool)
    requires f > 0 && e == 2 * f && (high <==> top % e >= f)
    ensures top % f <= top && top / e * e + (if high then f else 0) == top - top % f
  {
    hide *;
    DivBounds(top, e);
    QuotientNat(top, e);
    var r := if high then top % e - f else top % e;
    HalfSplit(top / e, e, f, top % e, top);
    DivModUnique(top, f, 2 * (top / e) + if high then 1 else 0, r);
    DivBounds(top, f);
    MulMono(0, top / e, e);
  }

  lemma HalfSplit(c: nat, e: nat, f: nat, econ: nat, top: nat)
    requires e == 2 * f && top == c * e + econ
    ensures top == 2 * c * f + econ && (2 * c + 1) * f == 2 * c * f + f && (2 * c + 0) * f == 2 * c * f
  {
    assert c * (2 * f) == 2 * c * f;
  }

  lemma SelectorPower(sh: Shape)
    requires sh.Valid()
    ensures Pow(2, sh.econl - 1) * Pow(2, 26 - sh.econl) == 0x200_0000
  {
    hide Pow;
    PowAdd(2, sh.econl - 1, 26 - sh.econl);
    BinaryPowers();
    PowAdd(2, 25, 7);
    SixtyFour();
    PowAdd(2, 6, 1);
    PowOne(2);
  }

  lemma ClearedBits(x: nat, q: nat, f: nat, top: nat)
    requires x < TWO32 && q > 0 && f > 0 && f * q == 0x200_0000 && top == x / q
    ensures x % 0x200_0000 / q == top % f && 0 <= top % f * q <= x
  {
    hide *;
    assert q * f == f * q;
    RemainderField(x, q, f, 0x200_0000);
    DivBounds(x, q);
    DivBounds(top, f);
    QuotientNat(x, q);
    QuotientNat(top, f);
    MulMono(0, top / f, f);
    MulMono(top % f, top, q);
    MulMono(0, top % f, q);
  }

  lemma NewTop(v: nat, t: nat, r: nat, q: nat, p: nat, top: nat)
    requires t > 0 && t == p * q && r <= v / t && top == v / t - r
    ensures v + ((0 - r * q) * p) == Above(top, t, v % t)
  {
    DivBounds(v, t);
    AboveIs(top, t, v % t);
    assert (v / t - r) * t == v / t * t - r * t;
    assert r * q * p == r * t by { MulAssoc(r, q, p); assert q * p == p * q; }
    assert (0 - r * q) * p == 0 - r * q * p;
  }

  /** A cleaned NaN with canonical declets is the encoding of what the NaN meant. */
  lemma NanEncoded(sh: Shape, v: nat, w: nat, neg: bool, signalling: bool)
    requires sh.Valid()
    requires w == Above(TopOf(sh, Nan(neg, signalling, 0)), Pow(1024, sh.declets), v % Pow(1024, sh.declets))
    ensures Replaced(w, sh.declets, Canonical) == Encode(sh, Nan(neg, signalling, ContValue(v, sh.declets)))
  {
    hide Pow, Above, PackCont, ContValue, Canonical;
    var n := sh.declets;
    var t := Pow(1024, n);
    var top := TopOf(sh, Nan(neg, signalling, 0));
    DivBounds(v, t);
    AboveParts(top, t, v % t, 0);
    PackOfCont(w, n);
    AboveIs(top, t, v % t);
    QuotientNat(v, t);
    ContOfSum(top, v % t, n, n);
    ContOfSum(v / t, v % t, n, n);
    AboveIs(top, t, ReplacedLow(w, n, Canonical));
    assert TopOf(sh, Nan(neg, signalling, ContValue(v, n))) == top;
  }

  method FillWords(df: array<nat>)
    modifies df
    ensures forall i :: 0 <= i < df.Length ==> df[i] == 0
  {
    var i := 0;
    while i < df.Length
      invariant i <= df.Length && forall j :: 0 <= j < i ==> df[j] == 0
    {
      df[i] := 0;
      i := i + 1;
    }
  }

  lemma InfinityEncoded(sh: Shape, neg: bool, top: nat)
    requires sh.Valid() && top == TopOf(sh, Asked(neg, InfHeader(false), 0, sh.declets))
    ensures Encode(sh, Inf(neg)) == Above(top, Pow(1024, sh.declets), 0)
  {
    hide Pow, Above;
    ZeroPacked(sh.declets);
  }

  lemma {:induction false} ZeroPacked(n: nat)
    ensures PackCont(0, n) == 0
  {
    hide ToDeclet, DigitAt, Pow, PackCont;
    NothingPacked(0);
    if n > 0 {
      ZeroPacked(n - 1);
      PackNext(0, n - 1);
      ZeroDeclet(n - 1);
    }
  }

  lemma ZeroDeclet(k: nat)
    ensures ToDeclet(DigitAt(1000, 0, k)) == 0
  {
    DivModUnique(0, Pow(1000, k), 0, 0);
  }

  /* ---- There and back ---- */

  lemma InfinityTop(sh: Shape, neg: bool, selector: bool)
    requires sh.Valid()
    ensures var top, e, f := AskedTop(sh, neg, InfHeader(selector), 0), Pow(2, sh.econl), Pow(2, sh.econl - 1);
      top / e == SignBit(neg) + 30 && top % e == (if selector then f else 0) && e == 2 * f && f > 0
    ensures var comb := SignBit(neg) + 30; comb % 32 == 30 && (comb / 32 % 2 == 1 <==> neg)
  {
    hide Pow, Above;
    HalfExponent(sh.econl);
    SignOfComb(neg, 30);
    AboveParts(SignBit(neg) + 30, Pow(2, sh.econl), if selector then Pow(2, sh.econl - 1) else 0, 0);
  }

  /** What FromBcd lays out means what was asked for. */
  lemma AskedDecodes(sh: Shape, neg: bool, h: Header, c: nat)
    requires sh.Valid() && c < 10 * Pow(1000, sh.declets) && (h.BiasedExp? ==> h.exp < 3 * Pow(2, sh.econl))
    ensures var d := Asked(neg, h, c, sh.declets); Decode(sh, AskedWhole(sh, neg, h, c)) == d && HeaderOf(d, neg, h)
  {
    hide Pow, PackCont, TopOf, Decode, Above, ContValue;
    var d, t, n := Asked(neg, h, c, sh.declets), Pow(1000, sh.declets), sh.declets;
    match h {
      case BiasedExp(_) =>
        DecodeEncode(sh, d);
      case NanHeader(_) =>
        DivBounds(c, t);
        QuotientNat(c, t);
        PackOfSum(c / t, c % t, n, n);
        DecodeEncode(sh, d);
      case InfHeader(selector) =>
        PackBound(c, n);
        InfinityDecodes(sh, neg, selector, PackCont(c, n));
    }
  }

  /** An infinity whatever the bits below its combination field say. */
  lemma InfinityDecodes(sh: Shape, neg: bool, selector: bool, low: nat)
    requires sh.Valid() && low < Pow(1024, sh.declets)
    ensures var top := AskedTop(sh, neg, InfHeader(selector), 0); var v := Above(top, Pow(1024, sh.declets), low);
      Decode(sh, v) == Inf(neg) && v / Pow(1024, sh.declets) == top && v % Pow(1024, sh.declets) == low
  {
    hide Pow, Above, ContValue, AskedTop;
    AboveParts(AskedTop(sh, neg, InfHeader(selector), 0), Pow(1024, sh.declets), low, 0);
    InfinityTop(sh, neg, selector);
  }

  /** The bit an infinity is laid out with is there in the top word. */
  lemma SelectorLaidOut(sh: Shape, s: seq<nat>, neg: bool, selector: bool, low: nat)
    requires sh.Valid() && IsEncoding(sh, s) && low < Pow(1024, sh.declets)
    requires Whole(s) == Above(AskedTop(sh, neg, InfHeader(selector), 0), Pow(1024, sh.declets), low)
    ensures Selected(s[0]) == selector
  {
    hide Pow, Whole, Above, AskedTop, Decode;
    var q, f := Pow(2, 26 - sh.econl), Pow(2, sh.econl - 1);
    TopWord(sh, s);
    SelectorPower(sh);
    InfinityDecodes(sh, neg, selector, low);
    InfinityTop(sh, neg, selector);
    SelectedIs(s[0], q, f);
  }

  /** The bit, as the upper half of the exponent continuation. */
  lemma SelectedIs(x: nat, q: nat, f: nat)
    requires q > 0 && f > 0 && f * q == 0x200_0000
    ensures Selected(x) <==> x / q % (2 * f) >= f
  {
    assert q * f == f * q;
    NestedDivision(x, q, f);
    QuotientNat(x, q);
    TopBit(x / q, f);
  }

  lemma TopBit(y: nat, f: nat)
    requires f > 0
    ensures y / f % 2 == 1 <==> y % (2 * f) >= f
  {
    NestedDivision(y, f, 2);
    QuotientNat(y, f);
    DivBounds(y, f);
    assert f * 2 == 2 * f;
    assert y / f % 2 == 1 ==> (y / f % 2) * f == f;
    assert y / f % 2 == 0 ==> (y / f % 2) * f == 0;
  }

  /* ---- The fields, bit by bit ---- */

  /** Section 3.5.2: the sign is the top bit; the next five are 11110 for an infinity and 11111 for a NaN, whose
      next bit says whether it signals; otherwise they hold the two top bits of the exponent and the leading
      digit, which is 8 or 9 if they begin with 11. */
  lemma FieldsAre(sh: Shape, s: seq<nat>)
    requires sh.Valid() && IsEncoding(sh, s)
    ensures var x, d, cont := s[0], Decode(sh, Whole(s)), ContValue(Whole(s), sh.declets);
      var comb := x / 0x400_0000 % 32;
      && d.neg == (x >= 0x8000_0000) && (d.Inf? <==> comb == 0x1E) && (d.Nan? <==> comb == 0x1F)
      && (d.Nan? ==> (d.signalling <==> x / 0x200_0000 % 2 == 1) && d.payload == cont)
      && (d.Num? ==>
            var large := comb / 8 == 3;
            var high, msd := if large then comb / 2 % 4 else comb / 8, if large then 8 + comb % 2 else comb % 8;
            && d.bexp == high * Pow(2, sh.econl) + x % 0x400_0000 / Pow(2, 26 - sh.econl)
            && d.coeff == msd * Pow(1000, sh.declets) + cont)
  {
    hide Whole, Pow, ContValue;
    var x, e, q, h := s[0], Pow(2, sh.econl), Pow(2, 26 - sh.econl), Pow(2, sh.econl - 1);
    TopWord(sh, s);
    FieldsOfWord(x, e, q);
    HalfExponent(sh.econl);
    SelectorPower(sh);
    SelectedIs(x, q, h);
    SignOfWord(x);
    CombinationOf(x / 0x400_0000 % 32);
  }

  lemma SignOfWord(x: nat)
    requires x < TWO32
    ensures x / 0x400_0000 / 32 % 2 == 1 <==> x >= 0x8000_0000
  {
    NestedDivision(x, 0x400_0000, 32);
  }

  lemma CombinationOf(comb: nat)
    requires comb < 32
    ensures comb < 30 ==>
      CombExp(comb) == (if comb / 8 == 3 then comb / 2 % 4 else comb / 8)
      && CombMsd(comb) == (if comb / 8 == 3 then 8 + comb % 2 else comb % 8)
  {}

  /** The canonical encodings of special values: nothing is set but the sign, the combination field, a signalling
      NaN's bit and a NaN's payload. */
  lemma CanonicalSpecials(sh: Shape, neg: bool, signalling: bool, payload: nat)
    requires sh.Valid()
    ensures var w, sign := Pow(TWO32, sh.words - 1), if neg then 0x8000_0000 else 0;
      && Encode(sh, Inf(neg)) == (sign + 0x7800_0000) * w
      && Encode(sh, Nan(neg, signalling, payload)) ==
           (sign + 0x7C00_0000 + if signalling then 0x200_0000 else 0) * w + PackCont(payload, sh.declets)
  {
    hide Pow, PackCont;
    var e, q, h, w := Pow(2, sh.econl), Pow(2, 26 - sh.econl), Pow(2, sh.econl - 1), Pow(TWO32, sh.words - 1);
    ZeroPacked(sh.declets);
    HalfExponent(sh.econl);
    SelectorPower(sh);
    WordsOfEncoding(sh);
    FieldInWords(SignBit(neg) + 30, e, h, q, w);
    FieldInWords(SignBit(neg) + 31, e, h, q, w);
  }

  /** Fields in the top word, counted in the units of the whole encoding. */
  lemma FieldInWords(comb: nat, e: nat, h: nat, q: nat, w: nat)
    requires e == 2 * h && h * q == 0x200_0000
    ensures comb * e * (w * q) == comb * 0x400_0000 * w
    ensures (comb * e + h) * (w * q) == (comb * 0x400_0000 + 0x200_0000) * w
  {
    assert e * q == 0x400_0000;
    Fourfold(comb, e, w, q);
    Fourfold(1, h, w, q);
    assert (comb * e + h) * (w * q) == comb * e * (w * q) + 1 * h * (w * q);
  }

  lemma Fourfold(c: nat, e: nat, w: nat, q: nat)
    ensures c * e * (w * q) == c * (e * q) * w
  {}

  lemma WordsOfEncoding(sh: Shape)
    requires sh.Valid()
    ensures Pow(1024, sh.declets) == Pow(TWO32, sh.words - 1) * Pow(2, 26 - sh.econl)
  {
    hide Pow, Whole;
    var s := seq(sh.words, i => 0);
    TopWord(sh, s);
  }

  /** decFloatToBCD after decFloatFromBCD: the same sign and exponent or special value, and of a finite number
      the same digits; of a NaN, all but the first; of an infinity, zeros. */
  method FromThenTo(sh: Shape, neg: bool, h: Header, bcdar: array<nat>)
    returns (back: array<nat>, neg': bool, h': Header)
    requires sh.Valid() && bcdar.Length == sh.digits && AreDigits(bcdar[..])
    requires h.BiasedExp? ==> h.exp < 3 * Pow(2, sh.econl)
    ensures neg' == neg && h' == h && back.Length == sh.digits
    ensures h.BiasedExp? ==> back[..] == bcdar[..]
    ensures h.NanHeader? ==> back[..] == bcdar[..][0 := 0]
    ensures h.InfHeader? ==> back[..] == Zeros(sh.digits)
  {
    hide Whole, Pow, Above, Val, Decode, AskedTop, PackCont, Zeros;
    ghost var s := bcdar[..];
    LeadingDigitOf(sh, s);
    AskedDecodes(sh, neg, h, Val(s));
    var df := FromBcd(sh, neg, h, bcdar);
    back, neg', h' := ToBcd(sh, df);
    match h {
      case BiasedExp(_) =>
        ValUnique(back[..], s);
      case NanHeader(_) =>
        WithoutFirst(sh, s);
        ValUnique(back[..], s[0 := 0]);
      case InfHeader(selector) =>
        PackBound(Val(s), sh.declets);
        InfinityWhole(sh, neg, selector, Val(s));
        SelectorLaidOut(sh, df[..], neg, selector, PackCont(Val(s), sh.declets));
        ValUnique(back[..], Zeros(sh.digits));
    }
  }

  lemma InfinityWhole(sh: Shape, neg: bool, selector: bool, c: nat)
    requires sh.econl >= 2
    ensures AskedWhole(sh, neg, InfHeader(selector), c) ==
      Above(AskedTop(sh, neg, InfHeader(selector), 0), Pow(1024, sh.declets), PackCont(c, sh.declets))
  {}

  lemma WithoutFirst(sh: Shape, s: seq<nat>)
    requires |s| == sh.digits && AreDigits(s)
    ensures Val(s[0 := 0]) == Val(s) % Pow(1000, sh.declets) && AreDigits(s[0 := 0])
  {
    hide Pow, Val;
    ThousandsAreTens(sh.declets);
    CutValue(s, 1);
    ValSkipZero(s[0 := 0]);
    assert s[0 := 0][1..] == s[1..];
  }

  /** The encoding is the one that Encode chooses, and decCanonical leaves, for what it means. */
  ghost predicate IsCanonical(sh: Shape, v: nat)
    requires sh.Valid()
  {
    Encode(sh, Decode(sh, v)) == v
  }

  /** What decFloatFromBCD lays out is canonical, unless it is an infinity asked for with its spare bit set or
      with a digit other than the first that is not zero. */
  lemma AskedCanonicalIff(sh: Shape, neg: bool, h: Header, c: nat)
    requires sh.Valid() && c < 10 * Pow(1000, sh.declets) && (h.BiasedExp? ==> h.exp < 3 * Pow(2, sh.econl))
    ensures IsCanonical(sh, AskedWhole(sh, neg, h, c)) <==>
      !(h.InfHeader? && (h.selector || c % Pow(1000, sh.declets) != 0))
  {
    hide Pow, PackCont, TopOf, Decode, Above, ContValue, AskedTop;
    AskedDecodes(sh, neg, h, c);
    match h {
      case BiasedExp(_) =>
        AskedTopIs(sh, neg, h, c);
      case NanHeader(_) =>
        var t, n := Pow(1000, sh.declets), sh.declets;
        AskedTopIs(sh, neg, h, c);
        DivBounds(c, t);
        QuotientNat(c, t);
        PackOfSum(c / t, c % t, n, n);
      case InfHeader(selector) =>
        InfinityCanonicalIff(sh, neg, selector, c);
    }
  }

  lemma InfinityCanonicalIff(sh: Shape, neg: bool, selector: bool, c: nat)
    requires sh.Valid()
    ensures AskedWhole(sh, neg, InfHeader(selector), c) == Encode(sh, Inf(neg)) <==>
      !selector && c % Pow(1000, sh.declets) == 0
  {
    hide Pow, PackCont, Decode, Above, ContValue, AskedTop, TopOf;
    var n := sh.declets;
    PackBound(c, n);
    PackBound(0, n);
    ZeroPacked(n);
    InfinityWhole(sh, neg, selector, c);
    InfinityWhole(sh, neg, false, 0);
    AskedTopIs(sh, neg, InfHeader(false), 0);
    InfinityDecodes(sh, neg, selector, PackCont(c, n));
    InfinityDecodes(sh, neg, false, 0);
    InfinityTop(sh, neg, selector);
    InfinityTop(sh, neg, false);
    PackZeroIff(c, n);
  }

  lemma PackZeroIff(c: nat, n: nat)
    ensures PackCont(c, n) == 0 <==> c % Pow(1000, n) == 0
  {
    hide Pow, PackCont, ContValue;
    ZeroPacked(n);
    ContOfPack(c, n);
    ContOfPack(0, n);
    DivModUnique(0, Pow(1000, n), 0, 0);
    if c % Pow(1000, n) == 0 {
      DivBounds(c, Pow(1000, n));
      QuotientNat(c, Pow(1000, n));
      PackOfSum(c / Pow(1000, n), 0, n, n);
    }
  }

  method CopyWords(df: array<nat>) returns (copy: array<nat>)
    ensures fresh(copy) && copy[..] == df[..]
  {
    copy := new nat[df.Length](i requires 0 <= i < df.Length reads df => df[i]);
  }

  /** What decFloatToBCD and then decFloatFromBCD make of a bit pattern with top word x. */
  function Returned(sh: Shape, v: nat, x: nat): nat
    requires sh.econl >= 2
  {
    match Decode(sh, v)
    case Inf(neg) => AskedWhole(sh, neg, InfHeader(Selected(x)), 0)
    case d => Encode(sh, d)
  }

  lemma ReturnedIs(sh: Shape, v: nat, x: nat, neg: bool, h: Header)
    requires sh.Valid() && InRange(sh, Decode(sh, v)) && HeaderOf(Decode(sh, v), neg, h)
    requires h.InfHeader? ==> h.selector == Selected(x)
    ensures h.BiasedExp? ==> h.exp < 3 * Pow(2, sh.econl)
    ensures AskedWhole(sh, neg, h, ContOf(Decode(sh, v))) == Returned(sh, v, x)
    ensures Decode(sh, Returned(sh, v, x)) == Decode(sh, v)
    ensures Returned(sh, v, x) == Encode(sh, Decode(sh, v)) <==> !(Decode(sh, v).Inf? && Selected(x))
  {
    hide Pow, TopOf, PackCont, Above, AskedTop, Decode;
    var d := Decode(sh, v);
    if d.Nan? { DivModUnique(d.payload, Pow(1000, sh.declets), 0, d.payload); }
    if d.Inf? {
      InfinityCanonicalIff(sh, neg, h.selector, 0);
      DivModUnique(0, Pow(1000, sh.declets), 0, 0);
      PackBound(0, sh.declets);
      InfinityWhole(sh, neg, h.selector, 0);
      InfinityDecodes(sh, neg, h.selector, PackCont(0, sh.declets));
    } else {
      AskedTopIs(sh, neg, h, ContOf(d));
      DecodeEncode(sh, d);
    }
  }

  /** decFloatFromBCD after decFloatToBCD, on any bit pattern: a pattern of the same meaning, and exactly the
      words that decCanonical leaves unless it is an infinity with the bit after its combination field set. */
  method ToThenFrom(sh: Shape, df: array<nat>) returns (back: array<nat>, canon: array<nat>)
    requires sh.Valid() && IsEncoding(sh, df[..])
    ensures IsEncoding(sh, back[..]) && Whole(back[..]) == Returned(sh, Whole(df[..]), df[0])
    ensures IsEncoding(sh, canon[..]) && Whole(canon[..]) == Encode(sh, Decode(sh, Whole(df[..])))
    ensures Decode(sh, Whole(back[..])) == Decode(sh, Whole(df[..]))
    ensures back[..] == canon[..] <==> !(Decode(sh, Whole(df[..])).Inf? && Selected(df[0]))
  {
    hide Whole, Pow, Val, Decode, Encode, InRange, ContOf, Returned, Selected, HeaderOf, AskedWhole;
    ghost var v, x := Whole(df[..]), df[0];
    canon := CopyWords(df);
    DecCanonical(sh, canon);
    ghost var words := canon[..];
    WordsHold(sh, df[..]);
    EncodeDecode(sh, v);
    var bcdar, neg, h := ToBcd(sh, df);
    ReturnedIs(sh, v, x, neg, h);
    back := FromBcd(sh, neg, h, bcdar);
    assert canon[..] == words;
    if Whole(back[..]) == Whole(canon[..]) { WholeUnique(back[..], canon[..]); }
  }

  /** The decDouble infinity 7A000000 00000000 comes back as it was, where decCanonical clears a bit. */
  lemma InfinityNotCleaned()
    ensures var s, v := [0x7A00_0000, 0], 0x7A00_0000_0000_0000;
      && Whole(s) == v && Decode(DOUBLE_SHAPE, v) == Inf(false)
      && Returned(DOUBLE_SHAPE, v, s[0]) == v && Encode(DOUBLE_SHAPE, Inf(false)) == 0x7800_0000_0000_0000
  {
    hide Pow, PackCont, ContValue, Whole, Above;
    PowersForDouble();
    TwoWords(0x7A00_0000);
    ZeroPacked(5);
    AboveIs(30, 256, 0);
    AboveIs(30, 256, 128);
    AboveIs(7680, 0x4_0000_0000_0000, 0);
    AboveIs(7808, 0x4_0000_0000_0000, 0);
  }

  lemma TwoWords(x: nat)
    ensures Whole([x, 0]) == x * TWO32
  {
    assert [x, 0][..1] == [x];
    assert Whole([x][..0]) == 0;
  }

  lemma PowersForDouble()
    ensures Pow(1024, 5) == 0x4_0000_0000_0000 && Pow(2, 8) == 256 && Pow(2, 7) == 128
  {
    assert Pow(1024, 2) == 0x10_0000;
    PowAdd(1024, 2, 2);
    PowAdd(1024, 4, 1);
    assert Pow(2, 3) == 8;
    PowAdd(2, 3, 3);
    PowAdd(2, 6, 1);
  }
}
