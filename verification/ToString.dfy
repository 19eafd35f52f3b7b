/** decFloatToString, and reading its strings back. */
module StringWriter {
  import opened Arith
  import opened Digits
  import opened Rounding
  import opened Context
  import opened IntegerDivision
  import opened NumericString
  import opened StringReader

  /* ---- What is printed: to-scientific-string ---- */

  /** A number's digits with no leading zeros. */
  function Shortest(c: nat): (s: seq<nat>)
    ensures |s| == NumDigits(c) > 0 && AreDigits(s)
  {
    DecimalDigits(c, NumDigits(c))
  }

  lemma ShortestValue(c: nat)
    ensures Val(Shortest(c)) == c
  {
    NumDigitsBounds(c);
    DecimalDigitsValue(c, NumDigits(c));
  }

  /** Digits with a leading one that is not zero are the shortest for their value. */
  lemma ShortestIs(s: seq<nat>)
    requires AreDigits(s) && |s| > 0 && s[0] != 0
    ensures Shortest(Val(s)) == s
  {
    hide Val, Pow, DecimalDigits;
    ValLeading(s);
    ValBound(s);
    NumDigitsIs(Val(s), |s|);
    ShortestValue(Val(s));
    ValUnique(Shortest(Val(s)), s);
  }

  /** Digits that need an exponent to be written without padding. */
  predicate NeedsExponent(n: int, exp: int) { exp > 0 || n + exp < -5 }

  /** One digit before the point, and an exponent. */
  function LaidScientific(d: seq<nat>, e: int): (n: Numeral)
    requires |d| > 0 && AreDigits(d)
    ensures WellFormed(n)
  {
    Numeral(Unmarked, d[..1], |d| > 1, d[1..], Exponent('E', if e < 0 then Minus else Plus, Shortest(Abs(e))))
  }

  function LaidPlain(d: seq<nat>, pre: nat): (n: Numeral)
    requires 0 < pre <= |d| && AreDigits(d)
    ensures WellFormed(n)
  {
    Numeral(Unmarked, d[..pre], pre < |d|, d[pre..], NoExponent)
  }

  function LaidSmall(d: seq<nat>, zeros: nat): (n: Numeral)
    requires AreDigits(d)
    ensures WellFormed(n)
  {
    var fraction := Zeros(zeros) + d;
    Numeral(Unmarked, [0], true, fraction, NoExponent)
  }

  /** Digits d at exponent exp, without a sign: plain if the exponent is not positive and the number not
      too small, otherwise with one digit before the point and an exponent. */
  function Laid(d: seq<nat>, exp: int): (n: Numeral)
    requires |d| > 0 && AreDigits(d)
    ensures WellFormed(n) && n.mark == Unmarked
  {
    var pre := |d| + exp;
    if NeedsExponent(|d|, exp) then LaidScientific(d, pre - 1)
    else if pre > 0 then LaidPlain(d, pre)
    else LaidSmall(d, -pre)
  }

  function SignMark(neg: bool): Mark { if neg then Minus else Unmarked }

  function NanWord(signalling: bool): string { if signalling then "sNaN" else "NaN" }

  function Unsigned(d: Datum): string {
    match d
    case Value(Finite(_, c, exp)) => Spell(Laid(Shortest(c), exp))
    case Value(Infinite(_)) => "Infinity"
    case Value(NaN(signalling)) => NanWord(signalling)
    case NanValue(_, signalling, payload) =>
      NanWord(signalling) + if payload == 0 then "" else Text(Shortest(payload))
  }

  predicate DatumSign(d: Datum) {
    match d case Value(x) => SignOf(x) case NanValue(neg, _, _) => neg
  }

  function Printed(d: Datum): string {
    SpellMark(SignMark(DatumSign(d))) + Unsigned(d)
  }

  /** What the format can hold. */
  ghost predicate Held(f: Format, d: Datum)
    requires f.p > 0
  {
    match d
    case Value(x) => !x.NaN? && (x.Finite? ==> Holds(f, x))
    case NanValue(_, _, payload) => payload < Pow(10, f.p - 1)
  }

  /* ---- Reading back what was printed ---- */

  /** n stands for Val(d) * 10^exp. */
  ghost predicate Says(n: Numeral, d: seq<nat>, exp: int) {
    Val(n.digits) == Val(d) && TrueExponent(n.suffix) - |n.fraction| == exp
  }

  lemma LaidValue(d: seq<nat>, exp: int)
    requires |d| > 0 && AreDigits(d)
    ensures Says(Laid(d, exp), d, exp)
  {
    hide Says, LaidScientific, LaidPlain, LaidSmall;
    var pre := |d| + exp;
    if NeedsExponent(|d|, exp) {
      ScientificSays(d, pre - 1);
    } else if pre > 0 {
      PlainSays(d, pre);
    } else {
      SmallSays(d, -pre);
    }
  }

  lemma ScientificSays(d: seq<nat>, e: int)
    requires |d| > 0 && AreDigits(d)
    ensures Says(LaidScientific(d, e), d, e + 1 - |d|)
  {
    hide Val, Shortest;
    Rejoin(d, 1);
    ShortestValue(Abs(e));
  }

  lemma PlainSays(d: seq<nat>, pre: nat)
    requires 0 < pre <= |d| && AreDigits(d)
    ensures Says(LaidPlain(d, pre), d, pre - |d|)
  {
    hide Val;
    Rejoin(d, pre);
  }

  lemma SmallSays(d: seq<nat>, zeros: nat)
    requires AreDigits(d)
    ensures Says(LaidSmall(d, zeros), d, 0 - zeros - |d|)
  {
    hide Val;
    PaddedJoin(d, zeros);
  }

  lemma Rejoin(d: seq<nat>, i: nat)
    requires i <= |d|
    ensures d[..i] + d[i..] == d
  {}

  lemma PaddedJoin(d: seq<nat>, n: nat)
    ensures Val([0] + (Zeros(n) + d)) == Val(d)
  {
    hide Val;
    assert [0] + (Zeros(n) + d) == Zeros(n + 1) + d;
    ValPadded(n + 1, d);
  }

  lemma MarkedSpells(n: Numeral, mark: Mark)
    requires WellFormed(n) && n.mark == Unmarked
    ensures WellFormed(n.(mark := mark)) && Spell(n.(mark := mark)) == SpellMark(mark) + Spell(n)
  {
    hide Text, SpellSuffix;
    var m := n.(mark := mark);
    assert SpellPoint(m) == SpellPoint(n);
    hide *;
    SpellParts(n);
    SpellParts(m);
    MarkInFront(SpellMark(mark), Text(n.whole), SpellPoint(n), SpellSuffix(n.suffix));
    NoMark();
  }

  lemma NoMark()
    ensures SpellMark(Unmarked) == ""
  {}

  lemma MarkInFront(a: string, b: string, c: string, d: string)
    ensures a + b + c + d == a + ("" + b + c + d)
  {}

  /** The printed exponent has no more digits than the format allows for. */
  lemma PrintedExponentShort(t: TextFormat, c: nat, exp: int)
    requires t.Valid() && c < Pow(10, t.f.p) && t.f.etiny <= exp <= t.f.etop
    ensures ShortExponent(t, Laid(Shortest(c), exp).suffix)
  {
    hide Val, Pow, Significant;
    var n := NumDigits(c);
    NumDigitsAtMost(c, t.f.p);
    if NeedsExponent(n, exp) {
      NumDigitsAtMost(Abs(n + exp - 1), t.emaxd);
    }
    SignificantShorter();
  }

  lemma SignificantShorter()
    ensures forall s: seq<nat> :: |Significant(s)| <= |s|
  {}

  lemma NumDigitsAtMost(c: nat, n: nat)
    requires c < Pow(10, n) && n > 0
    ensures NumDigits(c) <= n
  {
    hide Pow;
    NumDigitsBounds(c);
    if NumDigits(c) > n { PowMono(10, n, NumDigits(c) - 1); }
    hide NumDigits;
  }

  /** Every finite number of the format is read back from its string: same sign, coefficient and
      exponent, and nothing raised. */
  lemma FiniteReadsBack(t: TextFormat, mode: Mode, x: Rounding.Number)
    requires t.Valid() && x.Finite? && Holds(t.f, x)
    ensures Reads(t, mode, Printed(Value(x))) == Reading(Value(x), {})
  {
    hide Val, Pow, Spell, Laid, Reads, RoundScaled, Shortest, TrueExponent, ShortExponent;
    var n := Laid(Shortest(x.coeff), x.exp);
    var m := n.(mark := SignMark(x.neg));
    MarkedSpells(n, SignMark(x.neg));
    PrintedExponentShort(t, x.coeff, x.exp);
    SpellingIsRounded(t, mode, m);
    LaidValue(Shortest(x.coeff), x.exp);
    ShortestValue(x.coeff);
    HeldExactly(t.f, mode, x.neg, x.coeff, x.exp);
  }

  lemma InfinityReadsBack(t: TextFormat, mode: Mode, neg: bool)
    requires t.Valid()
    ensures Reads(t, mode, Printed(Value(Infinite(neg)))) == Reading(Value(Infinite(neg)), {})
    ensures Read(Printed(Value(Infinite(neg)))).InfinityText?
  {
    hide Printed, Read, Run, MarkAt, AfterMark, RoundScaled;
    var d := Value(Infinite(neg));
    var s := Printed(d);
    assert Unsigned(d) == "Infinity";
    MarkOfPrinted(d);
    InfinityWord(s, AfterMark(s, 0));
    ReadIsSpecial(s, AfterMark(s, 0));
  }

  lemma InfinityWord(s: string, i: nat)
    requires i <= |s| && s[i..] == "Infinity"
    ensures i < |s| && s[i] == 'I' && Caseless(s, i, "infinity", "INFINITY")
  {
    forall k | 0 <= k < 8 ensures s[i + k] == "infinity"[k] || s[i + k] == "INFINITY"[k] {
      assert s[i + k] == s[i..][k];
    }
    assert s[i + 0] == s[i..][0];
  }

  lemma NanRead(s: string, mark: Mark, i: nat, signalling: bool, payload: seq<nat>)
    requires i <= |s| && mark == MarkAt(s, 0) && i == AfterMark(s, 0) && AreDigits(payload)
    requires s[i..] == (if signalling then "sNaN" else "NaN") + Text(payload)
    ensures Read(s) == NanText(mark, signalling, payload)
  {
    hide Text, DigitsIn, Run, MarkAt, AfterMark, Read, ReadSpecial;
    var j := i + if signalling then 4 else 3;
    NanLetters(s, i, signalling, Text(payload));
    TextReads(s, payload, j);
    SpecialIsNan(s, mark, i, signalling);
    ReadIsSpecial(s, i);
  }

  /** The letters of a NaN, and what follows them. */
  lemma NanLetters(s: string, i: nat, signalling: bool, digits: string)
    requires i <= |s| && s[i..] == (if signalling then "sNaN" else "NaN") + digits
    ensures var k := if signalling then i + 1 else i; var j := k + 3;
      && j + |digits| == |s| && s[j..j + |digits|] == digits
      && s[k] == 'N' && s[k + 1] == 'a' && s[k + 2] == 'N' && (signalling ==> s[i] == 's')
  {
    var r := s[i..];
    assert s[i] == r[0] && s[i + 1] == r[1] && s[i + 2] == r[2];
    var k := if signalling then 4 else 3;
    if signalling { assert s[i + 3] == r[3]; }
    assert r[k..] == digits && s[i + k..] == r[k..];
  }

  lemma SpecialIsNan(s: string, mark: Mark, i: nat, signalling: bool)
    requires var k := if signalling then i + 1 else i;
      k + 3 <= |s| && s[k] == 'N' && s[k + 1] == 'a' && s[k + 2] == 'N' && (signalling ==> s[i] == 's') &&
          Run(s, k + 3) == |s|
    ensures ReadSpecial(s, mark, i) ==
      NanText(mark, signalling, DigitsIn(s, if signalling then i + 4 else i + 3, |s|))
  {
    hide DigitsIn, Run, Caseless;
    NotInfinity(s, i);
  }

  lemma NotInfinity(s: string, i: nat)
    requires i < |s| && s[i] != 'i' && s[i] != 'I'
    ensures !Caseless(s, i, "infinity", "INFINITY") && !Caseless(s, i, "inf", "INF")
  {
    assert s[i + 0] != "infinity"[0] && s[i + 0] != "INFINITY"[0] && s[i + 0] != "inf"[0] && s[i + 0] != "INF"[0];
  }

  lemma ReadIsSpecial(s: string, i: nat)
    requires i == AfterMark(s, 0) < |s| && !IsDigit(s[i]) && s[i] != '.'
    ensures Read(s) == ReadSpecial(s, MarkAt(s, 0), i)
  {
    RunIs(s, i, i);
  }

  lemma MarkOfPrinted(d: Datum)
    requires Unsigned(d) != "" && Unsigned(d)[0] != '+' && Unsigned(d)[0] != '-'
    ensures var s := Printed(d); var i := AfterMark(s, 0);
      MarkAt(s, 0) == SignMark(DatumSign(d)) && s[i..] == Unsigned(d)
  {
    hide Unsigned, DatumSign;
    var s := Printed(d);
    var m := SpellMark(SignMark(DatumSign(d)));
    assert s[|m|..] == Unsigned(d) && s[0..|m|] == m;
    assert s[|m|] == Unsigned(d)[0];
    MarkReads(s, 0, SignMark(DatumSign(d)));
  }

  lemma NanReadsBack(t: TextFormat, mode: Mode, d: Datum)
    requires t.Valid() && d.NanValue? && Held(t.f, d)
    ensures Reads(t, mode, Printed(d)) == Reading(d, {}) && Read(Printed(d)).NanText?
  {
    hide Pow, Val, Text, Shortest, Printed, Read, Significant;
    var payload := if d.payload == 0 then [] else Shortest(d.payload);
    NoText();
    assert Unsigned(d) == (if d.signalling then "sNaN" else "NaN") + Text(payload);
    MarkOfPrinted(d);
    NanRead(Printed(d), SignMark(d.neg), AfterMark(Printed(d), 0), d.signalling, payload);
    PayloadDigits(d.payload, t.f.p);
  }

  lemma NoText()
    ensures Text([]) == ""
  {}

  lemma PayloadDigits(payload: nat, p: nat)
    requires p >= 2 && payload < Pow(10, p - 1)
    ensures var s := if payload == 0 then [] else Shortest(payload); |Significant(s)| < p && Val(s) == payload
  {
    hide Pow, Val, Significant;
    SignificantShorter();
    ShortestValue(payload);
    NumDigitsAtMost(payload, p - 1);
    assert Val([]) == 0 by { ValZeros([]); }
  }

  /** Every value is read back from its string: sign, coefficient and exponent, infinity, or NaN with
      its payload; and nothing is raised, whatever the rounding mode. */
  lemma PrintedReadsBack(t: TextFormat, mode: Mode, d: Datum)
    requires t.Valid() && Held(t.f, d)
    ensures Reads(t, mode, Printed(d)) == Reading(d, {})
  {
    hide Printed, Reads, Pow;
    match d {
      case NanValue(_, _, _) => NanReadsBack(t, mode, d);
      case Value(Infinite(neg)) => InfinityReadsBack(t, mode, neg);
      case Value(Finite(_, _, _)) => FiniteReadsBack(t, mode, d.num);
    }
  }

  /* ---- Writing digits ---- */

  lemma {:induction false} SignificantAppend(d: seq<nat>, x: seq<nat>)
    ensures Significant(d + x) == if Significant(d) == [] then Significant(x) else Significant(d) + x
  {
    if d == [] {
      assert d + x == x;
    } else if d[0] == 0 {
      assert (d + x)[1..] == d[1..] + x;
      SignificantAppend(d[1..], x);
    }
  }

  /** The significant digits of a number, or a single zero. */
  lemma SignificantIsShortest(s: seq<nat>)
    requires AreDigits(s)
    ensures Shortest(Val(s)) == if Significant(s) == [] then [0] else Significant(s)
  {
    hide Val, Shortest, Significant;
    SignificantValue(s);
    if Significant(s) == [] {
      assert Val([]) == 0 by { ValZeros([]); }
      ShortestOfZero();
    } else {
      ShortestIs(Significant(s));
    }
  }

  lemma ShortestOfZero()
    ensures Shortest(0) == [0]
  {
    assert DecimalDigits(0, 0) == [];
  }

  lemma TextAppend(d: seq<nat>, x: seq<nat>)
    requires AreDigits(d) && AreDigits(x)
    ensures Text(d + x) == Text(d) + Text(x)
  {}

  method PutDigit(text: array<char>, c: nat, d: nat)
    requires c < text.Length && d <= 9
    modifies text
    ensures text[..c + 1] == old(text[..c]) + Text([d])
  {
    text[c] := CharOf(d);
    assert text[..c + 1] == text[..c] + [text[c]];
  }

  /** Up to three digits, by a write of four characters: what follows the digits is of no account. */
  method PutDigits(text: array<char>, c: nat, d: seq<nat>)
    requires c + 4 <= text.Length && 1 <= |d| <= 3 && AreDigits(d)
    modifies text
    ensures text[..c + |d|] == old(text[..c]) + Text(d)
  {
    text[c + 1], text[c + 2], text[c + 3] := *, *, *;
    forall i | 0 <= i < |d| { text[c + i] := CharOf(d[i]); }
    assert text[..c + |d|] == text[..c] + text[c..c + |d|];
  }

  /** The text before, and then the significant ones of the digits. */
  ghost predicate Shows(s: string, before: string, d: seq<nat>) {
    AreDigits(d) && s == before + Text(Significant(d))
  }

  /** Digits after others are all significant. */
  lemma ShowsMore(s: string, t: string, before: string, d: seq<nat>, u: seq<nat>)
    requires Shows(s, before, d) && |s| != |before| && AreDigits(u) && t == s + Text(u)
    ensures Shows(t, before, d + u)
  {
    hide Text, Significant;
    SignificantAppend(d, u);
    TextLength(Significant(d));
    TextAppend(Significant(d), u);
    assert before + Text(Significant(d)) + Text(u) == before + (Text(Significant(d)) + Text(u));
  }

  /** Of the first ones only what is left without leading zeros. */
  lemma ShowsFirst(s: string, t: string, before: string, d: seq<nat>, u: seq<nat>)
    requires Shows(s, before, d) && |s| == |before| && AreDigits(u) && t == s + Text(Significant(u))
    ensures Shows(t, before, d + u)
  {
    hide Text, Significant;
    SignificantAppend(d, u);
    TextLength(Significant(d));
    assert Significant(d) == [] && s == before;
  }

  /** The three digits of a declet: all of them if anything stands before them, otherwise only the
      significant ones. d is what went before. */
  method PutDeclet(text: array<char>, cstart: nat, c0: nat, d2: nat, d1: nat, d0: nat, ghost before: string,
                   ghost d: seq<nat>)
    returns (c: nat)
    requires cstart <= c0 && c0 + 4 <= text.Length && d2 <= 9 && d1 <= 9 && d0 <= 9
    requires |before| == cstart && Shows(text[..c0], before, d)
    modifies text
    ensures c0 <= c <= c0 + 3 && Shows(text[..c], before, d + [d2, d1, d0])
  {
    hide Text, Significant, Shows;
    var u := [d2, d1, d0];
    ghost var s := text[..c0];
    c := c0;
    if c0 != cstart {
      PutDigits(text, c, u);
      c := c + 3;
      ShowsMore(s, text[..c], before, d, u);
    } else {
      SignificantThree(d2, d1, d0);
      var len := if d2 != 0 then 3 else if d1 != 0 then 2 else if d0 != 0 then 1 else 0;
      assert u[3 - len..] == Significant(u);
      if len != 0 {
        PutDigits(text, c, u[3 - len..]);
        c := c + len;
      } else {
        NoText();
        assert s == s + Text([]);
      }
      ShowsFirst(s, text[..c], before, d, u);
    }
  }

  lemma SignificantOne(d: nat)
    ensures Significant([d]) == if d != 0 then [d] else []
  {
    assert [d][1..] == [];
  }

  lemma SignificantThree(d2: nat, d1: nat, d0: nat)
    ensures Significant([d2, d1, d0]) ==
      if d2 != 0 then [d2, d1, d0] else if d1 != 0 then [d1, d0] else if d0 != 0 then [d0] else []
  {
    assert [d2, d1, d0][1..] == [d1, d0] && [d1, d0][1..] == [d0];
    SignificantOne(d0);
    assert Significant([d1, d0]) == if d1 != 0 then [d1, d0] else Significant([d0]);
  }

  /** The coefficient, left aligned: the leading digit and then the declets. */
  method PutCoefficient(p: nat, text: array<char>, cstart: nat, coeff: nat) returns (c: nat)
    requires p % 3 == 1 && coeff < Pow(10, p) && cstart + p < text.Length
    modifies text
    ensures c == cstart + NumDigits(coeff) < text.Length
    ensures text[..c] == old(text[..cstart]) + Text(Shortest(coeff))
  {
    hide Text, Significant, Shortest, Val, Pow, DecimalDigits, Shows;
    ghost var before := text[..cstart];
    var d := DecimalDigits(coeff, p);
    DecimalDigitsValue(coeff, p);
    c := cstart;
    if d[0] != 0 {
      PutDigit(text, c, d[0]);
      c := c + 1;
    }
    ShowsOne(text[..c], before, d);
    var k := 1;
    while k < p
      invariant k <= p && k % 3 == 1 && cstart <= c <= cstart + k
      invariant Shows(text[..c], before, d[..k])
    {
      c := PutDeclet(text, cstart, c, d[k], d[k + 1], d[k + 2], before, d[..k]);
      assert d[..k] + [d[k], d[k + 1], d[k + 2]] == d[..k + 3];
      k := k + 3;
    }
    assert d[..k] == d;
    ShowsAll(text[..c], before, d);
    if c == cstart {
      assert text[..c] == before;
      PutDigit(text, c, 0);
      c := c + 1;
    }
  }

  lemma ShowsOne(s: string, before: string, d: seq<nat>)
    requires |d| > 0 && AreDigits(d) && s == if d[0] != 0 then before + Text([d[0]]) else before
    ensures Shows(s, before, d[..1])
  {
    hide Text, Significant;
    assert d[..1] == [d[0]];
    SignificantOne(d[0]);
    NoText();
    assert before + "" == before;
  }

  lemma ShowsAll(s: string, before: string, d: seq<nat>)
    requires Shows(s, before, d)
    ensures |Text(Shortest(Val(d)))| == NumDigits(Val(d))
    ensures if |s| == |before| then Text(Shortest(Val(d))) == Text([0]) && NumDigits(Val(d)) == 1
            else s == before + Text(Shortest(Val(d))) && |s| == |before| + NumDigits(Val(d))
    ensures |s| == |before| ==> s == before
  {
    hide Text, Significant, Shortest, Val, NumDigits;
    SignificantIsShortest(d);
    TextLength(Significant(d));
    TextLength([0]);
    ShortestLength(Val(d));
    TextLength(Shortest(Val(d)));
  }

  lemma ShortestLength(c: nat)
    ensures AreDigits(Shortest(c)) && |Shortest(c)| == NumDigits(c)
  {}

  /* ---- The exponent ---- */

  /** The thousands digit, by a reciprocal. */
  lemma Thousands(e: nat)
    requires e < 10000
    ensures e / 8 * 1049 / 131072 == e / 1000
  {
    var t, r := e / 1000, e % 1000;
    var q, u := e / 8, r / 8;
    assert q == 125 * t + u && u < 125;
    DivModUnique(q * 1049, 131072, t, 53 * t + 1049 * u);
  }

  method PutExponent(text: array<char>, c0: nat, e: nat) returns (c: nat)
    requires 0 < e < 10000 && c0 + 5 <= text.Length
    modifies text
    ensures c0 < c <= c0 + 4 && text[..c] == old(text[..c0]) + Text(Shortest(e))
  {
    hide Text, Significant, Shortest, Val;
    ghost var before := text[..c0];
    c := c0;
    ghost var d := [];
    NoText();
    assert Significant(d) == [] by { SignificantShorter(); }
    var rem := e;
    if e >= 1000 {
      Thousands(e);
      var thou := e / 8 * 1049 / 131072;
      rem := e - 1000 * thou;
      d := [thou];
      SignificantOne(thou);
      PutDigit(text, c, thou);
      c := c + 1;
    }
    assert text[..c] == before + Text(Significant(d));
    c := PutDeclet(text, c0, c, rem / 100, rem / 10 % 10, rem % 10, before, d);
    ExponentDigits(e, d, rem);
  }

  lemma ExponentDigits(e: nat, d: seq<nat>, rem: nat)
    requires 0 < e && rem < 1000
    requires if d == [] then e == rem else d == [e / 1000] && e / 1000 <= 9 && rem == e % 1000
    ensures var s := d + [rem / 100, rem / 10 % 10, rem % 10];
      AreDigits(s) && Shortest(e) == Significant(s) && Significant(s) != []
  {
    hide Shortest, Significant, Val;
    var s := d + [rem / 100, rem / 10 % 10, rem % 10];
    ThreeAppended(d, rem);
    if d == [] { assert Val(d) == 0 by { ValZeros(d); } } else { ValOne(e / 1000); }
    SignificantIsShortest(s);
    SignificantValue(s);
    if Significant(s) == [] { ValZeros(Significant(s)); }
  }

  lemma ThreeAppended(d: seq<nat>, rem: nat)
    requires rem < 1000
    ensures Val(d + [rem / 100, rem / 10 % 10, rem % 10]) == 1000 * Val(d) + rem
  {
    hide Val;
    assert d + [rem / 100, rem / 10 % 10, rem % 10] == d + [rem / 100] + [rem / 10 % 10] + [rem % 10];
    ValAppend(d, rem / 100);
    ValAppend(d + [rem / 100], rem / 10 % 10);
    ValAppend(d + [rem / 100] + [rem / 10 % 10], rem % 10);
    ThreeParts(rem);
  }

  lemma ThreeParts(rem: nat)
    requires rem < 1000
    ensures rem == rem / 100 * 100 + rem / 10 % 10 * 10 + rem % 10
  {
    Nest10(rem);
  }

  lemma Nest10(rem: nat)
    ensures rem / 10 / 10 == rem / 100
  {
    DivModUnique(rem, 100, rem / 10 / 10, rem / 10 % 10 * 10 + rem % 10);
  }

  /* ---- The layout ---- */

  /** Four characters at once: all are read before any is written, so that the places may overlap. */
  method MoveFour(text: array<char>, s: nat, t: nat)
    requires s + 4 <= text.Length && t + 4 <= text.Length
    modifies text
    ensures forall j :: t <= j < t + 4 ==> text[j] == old(text[j - t + s])
    ensures forall j :: 0 <= j < text.Length && !(t <= j < t + 4) ==> text[j] == old(text[j])
  {
    text[t], text[t + 1], text[t + 2], text[t + 3] := text[s], text[s + 1], text[s + 2], text[s + 3];
  }

  /** Halfway through opening a gap: from s on, the characters up to top have moved; those before their
      new places are as they were. */
  ghost predicate Moved(now: string, was: string, gap: nat, s: int, top: int) {
    && |now| == |was| && 0 <= s <= top <= |was| - gap
    && (forall j :: 0 <= j < s + gap ==> now[j] == was[j])
    && (forall j :: s + gap <= j < top + gap ==> now[j] == was[j - gap])
  }

  lemma FourMoved(now: string, before: string, was: string, gap: nat, s: nat, top: int)
    requires gap >= 1 && Moved(before, was, gap, s + 4, top) && |now| == |before|
    requires forall j :: s + gap <= j < s + gap + 4 ==> now[j] == before[j - gap]
    requires forall j :: 0 <= j < |now| && !(s + gap <= j < s + gap + 4) ==> now[j] == before[j]
    ensures Moved(now, was, gap, s, top)
  {
    forall j | s + gap <= j < top + gap ensures now[j] == was[j - gap] {
      if j < s + gap + 4 { assert now[j] == before[j - gap] == was[j - gap]; } else { assert now[j] == before[j]; }
    }
  }

  /** Opens a gap of one by fours, from the top; up to four characters of junk end up beyond to. */
  method OpenForPoint(text: array<char>, from: nat, to: nat)
    requires from <= to && to + 5 <= text.Length
    modifies text
    ensures text[..from] == old(text[..from]) && text[from + 1..to + 1] == old(text[from..to])
  {
    ghost var was := text[..];
    ghost var fours: int := (to - from) / 4;
    var s: int := from + (to - from) / 4 * 4;
    var t: int := s + 1;
    ghost var top := s + 4;
    while s >= from
      invariant 0 <= fours + 1 && s == from + 4 * fours && t == s + 1 && to <= top
      invariant Moved(text[..], was, 1, s + 4, top)
      decreases s
    {
      ghost var before := text[..];
      MoveFour(text, s, t);
      FourMoved(text[..], before, was, 1, s, top);
      s, t := s - 4, t - 4;
      fours := fours - 1;
    }
    assert text[..from] == was[..from] && text[..][from + 1..to + 1] == was[from..to];
  }

  /** A point after the first pre digits. */
  method InsertPoint(text: array<char>, cstart: nat, c: nat, pre: nat, ghost before: string, ghost d: seq<nat>)
    requires pre < |d| && c == cstart + |d| && c + 5 <= text.Length && AreDigits(d)
    requires |before| == cstart && text[..c] == before + Text(d)
    modifies text
    ensures text[..c + 1] == before + Text(d[..pre]) + "." + Text(d[pre..])
  {
    hide Text;
    var dotat := cstart + pre;
    ghost var was := text[..c];
    SplitText(before, d, pre, was);
    assert was[..dotat] == text[..dotat] && was[dotat..] == text[dotat..c];
    OpenForPoint(text, dotat, c);
    text[dotat] := '.';
    PointBetween(text[..], dotat, c + 1);
  }

  lemma PointBetween(s: string, i: nat, j: nat)
    requires i < j <= |s| && s[i] == '.'
    ensures s[..j] == s[..i] + "." + s[i + 1..j]
  {}

  lemma SplitText(before: string, d: seq<nat>, pre: nat, was: string)
    requires AreDigits(d) && pre <= |d| && was == before + Text(d)
    ensures was[..|before| + pre] == before + Text(d[..pre]) && was[|before| + pre..] == Text(d[pre..])
  {
    TextAppend(d[..pre], d[pre..]);
    assert d[..pre] + d[pre..] == d;
    assert was == (before + Text(d[..pre])) + Text(d[pre..]);
    hide Text;
  }

  method PutFour(text: array<char>, at: nat, w: string)
    requires |w| == 4 && at + 4 <= text.Length
    modifies text
    ensures forall i :: 0 <= i < text.Length ==> text[i] == if at <= i < at + 4 then w[i - at] else old(text[i])
  {
    text[at], text[at + 1], text[at + 2], text[at + 3] := w[0], w[1], w[2], w[3];
  }

  /** 0. through 0.00000 in a gap of that width. */
  method FillSmall(text: array<char>, cstart: nat, gap: nat)
    requires 2 <= gap <= 7 && cstart + gap <= text.Length
    modifies text
    ensures text[cstart..cstart + gap] == "0." + Text(Zeros(gap - 2))
    ensures forall i :: 0 <= i < text.Length && !(cstart <= i < cstart + gap) ==> text[i] == old(text[i])
  {
    if gap >= 4 {
      PutFour(text, cstart + gap - 4, "0000");
      PutFour(text, cstart, "0.00");
    } else {
      text[cstart + gap - 1] := '0';
      text[cstart] := '0';
      text[cstart + 1] := '.';
    }
    ZerosText(text[cstart..cstart + gap], gap);
  }

  lemma ZerosText(s: string, gap: nat)
    requires 2 <= gap == |s| && s[0] == '0' && s[1] == '.' && forall i :: 2 <= i < gap ==> s[i] == '0'
    ensures s == "0." + Text(Zeros(gap - 2))
  {
    assert s == s[..2] + s[2..];
    assert s[..2] == "0.";
    assert CharOf(0) == '0';
    assert s[2..] == Text(Zeros(gap - 2));
  }

  /** By fours, from the top: the first move is backed off so that the last place of the text, where the
      terminator may have to go, is never written. The last move may begin left of the coefficient. */
  method MoveByFours(text: array<char>, cstart: nat, c: nat, gap: nat) returns (s: int, ghost top: int)
    requires 2 <= gap <= 7 && cstart <= c && c + gap < text.Length && 12 <= text.Length
    modifies text
    ensures 0 <= s < 4 && c <= top < text.Length - gap && Moved(text[..], old(text[..]), gap, s, top)
    ensures text[text.Length - 1] == old(text[text.Length - 1])
  {
    ghost var was := text[..];
    var t: int := cstart + (c - cstart) / 4 * 4 + gap;
    if t > text.Length - 5 { t := text.Length - 5; }
    s := t - gap;
    top := s + 4;
    while s >= 0
      invariant -4 <= s && t == s + gap && c <= top < text.Length - gap && Moved(text[..], was, gap, s + 4, top)
      invariant text[text.Length - 1] == was[text.Length - 1]
      decreases s
    {
      ghost var before := text[..];
      MoveFour(text, s, t);
      FourMoved(text[..], before, was, gap, s, top);
      s, t := s - 4, t - 4;
    }
    s := s + 4;
  }

  /** Moves text[cstart..c] up: by fours, and the one to three characters that may be left one by one. What
      the moves write where the sign's move would go lies in the gap. */
  method OpenGap(text: array<char>, cstart: nat, c: nat, gap: nat)
    requires 2 <= gap <= 7 && cstart <= 1 && cstart <= c && c + gap < text.Length && 12 <= text.Length
    modifies text
    ensures text[cstart + gap..c + gap] == old(text[cstart..c]) && text[..cstart] == old(text[..cstart])
    ensures text[text.Length - 1] == old(text[text.Length - 1])
  {
    ghost var was := text[..];
    var s: int;
    ghost var top;
    s, top := MoveByFours(text, cstart, c, gap);
    s := s - 1;
    var t := s + gap - 3;
    while s >= cstart
      invariant -1 <= s && t + 3 == s + gap && Moved(text[..], was, gap, s + 1, top)
      invariant text[text.Length - 1] == was[text.Length - 1]
      decreases s
    {
      text[t + 3] := text[s];
      s, t := s - 1, t - 1;
    }
    assert text[..][cstart + gap..c + gap] == was[cstart..c];
  }

  /** Moves the coefficient right and fills the gap. */
  method MakeRoom(text: array<char>, cstart: nat, c: nat, gap: nat)
    requires 2 <= gap <= 7 && cstart <= 1 && cstart <= c && c + gap < text.Length && 12 <= text.Length
    modifies text
    ensures text[..c + gap] == old(text[..cstart]) + ("0." + Text(Zeros(gap - 2))) + old(text[cstart..c])
    ensures text[text.Length - 1] == old(text[text.Length - 1])
  {
    hide Text, Zeros;
    ghost var before := text[..cstart];
    OpenGap(text, cstart, c, gap);
    ghost var moved := text[cstart + gap..c + gap];
    FillSmall(text, cstart, gap);
    ThreeSlices(text[..], cstart, cstart + gap, c + gap);
    assert text[..cstart] == before;
    assert text[cstart + gap..c + gap] == moved;
    assert text[..][cstart + gap..c + gap] == text[cstart + gap..c + gap];
  }

  lemma ThreeSlices(s: string, i: nat, j: nat, k: nat)
    requires i <= j <= k <= |s|
    ensures s[..k] == s[..i] + s[i..j] + s[j..k]
  {}

  /** The plain form of a small number: 0. with up to five zeros before the coefficient. */
  method LayOutSmall(text: array<char>, cstart: nat, c: nat, zeros: nat, ghost before: string, ghost d: seq<nat>)
    returns (end: nat)
    requires zeros <= 5 && cstart <= 1 && c == cstart + |d| && c + 8 <= text.Length && 12 <= text.Length && AreDigits(d)
    requires |before| == cstart && text[..c] == before + Text(d)
    modifies text
    ensures end < text.Length && text[..end] == before + Spell(LaidSmall(d, zeros))
  {
    hide Text, Zeros, LaidSmall, Spell;
    assert text[..cstart] == before && text[cstart..c] == Text(d) by {
      assert text[..cstart] == text[..c][..cstart] && text[cstart..c] == text[..c][cstart..];
      TextLength(d);
    }
    MakeRoom(text, cstart, c, zeros + 2);
    end := c + zeros + 2;
    SmallSpells(d, zeros);
    Regrouped3(before, "0." + Text(Zeros(zeros)), Text(d));
  }

  lemma Regrouped3(a: string, b: string, c: string)
    ensures a + b + c == a + (b + c)
  {}

  lemma TextLength(d: seq<nat>)
    requires AreDigits(d)
    ensures |Text(d)| == |d|
  {}

  lemma SmallSpells(d: seq<nat>, zeros: nat)
    requires AreDigits(d)
    ensures Spell(LaidSmall(d, zeros)) == ("0." + Text(Zeros(zeros))) + Text(d)
  {
    TextAppend(Zeros(zeros), d);
    assert Text([0]) == "0";
    hide Text;
  }

  lemma PlainSpells(d: seq<nat>, pre: nat)
    requires 0 < pre <= |d| && AreDigits(d)
    ensures Spell(LaidPlain(d, pre)) == if pre < |d| then Text(d[..pre]) + "." + Text(d[pre..]) else Text(d)
  {
    assert pre == |d| ==> d[..pre] == d;
    hide Text;
    if pre < |d| {
      assert "" + Text(d[..pre]) + ("." + Text(d[pre..])) + "" == Text(d[..pre]) + "." + Text(d[pre..]);
    }
  }

  lemma ScientificSpells(d: seq<nat>, e: int)
    requires |d| > 0 && AreDigits(d)
    ensures Spell(LaidScientific(d, e)) ==
      Spell(LaidPlain(d, 1)) + (if e < 0 then "E-" else "E+") + Text(Shortest(Abs(e)))
  {
    hide Text, Shortest, Spell;
    var p, n := LaidPlain(d, 1), LaidScientific(d, e);
    SpellParts(p);
    SpellParts(n);
    assert p.whole == n.whole && SpellPoint(p) == SpellPoint(n);
    assert SpellSuffix(n.suffix) == (if e < 0 then "E-" else "E+") + Text(Shortest(Abs(e)));
    hide *;
    NoMark();
    NoSuffixText();
    SuffixLast(Text(n.whole) + SpellPoint(n), if e < 0 then "E-" else "E+", Text(Shortest(Abs(e))));
  }

  lemma NoSuffixText()
    ensures SpellSuffix(NoExponent) == ""
  {}

  lemma SuffixLast(a: string, b: string, c: string)
    ensures a + "" + b + c == a + (b + c)
  {
  }

  /** The digits, with a point after the first pre of them if there are more. */
  method LayOutPlain(text: array<char>, cstart: nat, c0: nat, pre: nat, ghost before: string, ghost d: seq<nat>)
    returns (c: nat)
    requires 0 < pre <= |d| && c0 == cstart + |d| <= text.Length && AreDigits(d)
    requires pre < |d| ==> c0 + 5 <= text.Length
    requires |before| == cstart && text[..c0] == before + Text(d)
    modifies text
    ensures c0 <= c <= c0 + (if pre < |d| then 1 else 0) && text[..c] == before + Spell(LaidPlain(d, pre))
  {
    hide Text, LaidPlain, Spell;
    PlainSpells(d, pre);
    c := c0;
    if cstart + pre < c {
      InsertPoint(text, cstart, c, pre, before, d);
      c := c + 1;
      Regrouped(before, Text(d[..pre]), ".", Text(d[pre..]));
    }
  }

  /** Adds what the exponent calls for to the digits in text[cstart..c0]: a point, zeros, an exponent. */
  method LayOut(text: array<char>, cstart: nat, c0: nat, exp: int, ghost before: string, ghost d: seq<nat>)
    returns (end: nat)
    requires c0 == cstart + |d| < text.Length && AreDigits(d) && |d| > 0
    requires exp != 0 ==> cstart <= 1 && c0 + 8 <= text.Length && 12 <= text.Length
    requires NeedsExponent(|d|, exp) ==> Abs(|d| + exp - 1) < 10000
    requires |before| == cstart && text[..c0] == before + Text(d)
    modifies text
    ensures end < text.Length && text[..end] == before + Spell(Laid(d, exp)) && text[end] == '\0'
  {
    hide Text, Shortest, LaidPlain, LaidSmall, LaidScientific, Spell;
    var e := 0;
    var pre := (c0 - cstart) + exp;
    if exp > 0 || pre < -5 {
      e := pre - 1;
      pre := 1;
    }
    if pre > 0 {
      end := LayOutPlain(text, cstart, c0, pre, before, d);
      if e != 0 {
        end := PutExponentPart(text, end, e);
        Regrouped(before, Spell(LaidPlain(d, 1)), if e < 0 then "E-" else "E+", Text(Shortest(Abs(e))));
        ScientificSpells(d, e);
      }
    } else {
      end := LayOutSmall(text, cstart, c0, -pre, before, d);
    }
    Terminate(text, end);
  }

  method Terminate(text: array<char>, end: nat)
    requires end < text.Length
    modifies text
    ensures text[..end] == old(text[..end]) && text[end] == '\0'
  {
    text[end] := '\0';
  }

  lemma Regrouped(a: string, b: string, c: string, d: string)
    ensures a + b + c + d == a + (b + c + d)
  {}

  method PutExponentPart(text: array<char>, c0: nat, e: int) returns (c: nat)
    requires e != 0 && Abs(e) < 10000 && c0 + 7 <= text.Length
    modifies text
    ensures c0 <= c < text.Length
    ensures text[..c] == old(text[..c0]) + (if e < 0 then "E-" else "E+") + Text(Shortest(Abs(e)))
  {
    hide Text, Shortest;
    c := c0;
    text[c], text[c + 1] := 'E', '+';
    c := c + 1;
    var m := e;
    if e < 0 {
      text[c] := '-';
      m := -e;
    }
    c := c + 1;
    assert text[..c] == text[..c0] + [text[c0], text[c0 + 1]];
    c := PutExponent(text, c, m);
  }

  /* ---- The text itself ---- */

  /** The digits of c as they are written by hand: no leading zero but that of zero itself. */
  ghost predicate Writes(d: seq<nat>, c: nat) {
    AreDigits(d) && |d| > 0 && Val(d) == c && (d[0] != 0 || |d| == 1)
  }

  lemma WrittenIsShortest(d: seq<nat>, c: nat)
    requires Writes(d, c)
    ensures Shortest(c) == d && |d| == NumDigits(c)
  {
    hide Val, Shortest;
    if d[0] != 0 {
      ShortestIs(d);
    } else {
      assert d == [0];
      ValOne(0);
      ShortestOfZero();
    }
  }

  /** The text of a finite number with digits d, whose adjusted exponent a has digits x. With an exponent that
      is not positive and a at least -6 the number is written out, in full or with a point, and with just the
      zeros that the exponent calls for after "0."; otherwise one digit is before the point and the exponent
      always has a sign. */
  lemma PrintedForm(neg: bool, c: nat, exp: int, d: seq<nat>, a: int, x: seq<nat>)
    requires Writes(d, c) && a == |d| - 1 + exp && Writes(x, if a < 0 then -a else a)
    ensures var text, sign := Printed(Value(Finite(neg, c, exp))), if neg then "-" else "";
      if exp > 0 || a < -6 then
        text == sign + (Text(d[..1]) + (if |d| > 1 then "." + Text(d[1..]) else "")
                        + ((if a < 0 then "E-" else "E+") + Text(x)))
      else if exp == 0 then text == sign + Text(d)
      else if a >= 0 then text == sign + (Text(d[..a + 1]) + "." + Text(d[a + 1..]))
      else text == sign + ("0." + Text(Zeros(-a - 1) + d))
  {
    hide Val, Text, Shortest, Zeros;
    WrittenIsShortest(d, c);
    WrittenIsShortest(x, if a < 0 then -a else a);
    LaidText(d, exp, a, x);
  }

  lemma LaidText(d: seq<nat>, exp: int, a: int, x: seq<nat>)
    requires AreDigits(d) && |d| > 0 && a == |d| - 1 + exp && AreDigits(x) && x == Shortest(Abs(a))
    ensures var text := Spell(Laid(d, exp));
      if exp > 0 || a < -6 then
        text == Text(d[..1]) + (if |d| > 1 then "." + Text(d[1..]) else "") + ((if a < 0 then "E-" else "E+") + Text(x))
      else if exp == 0 then text == Text(d)
      else if a >= 0 then text == Text(d[..a + 1]) + "." + Text(d[a + 1..])
      else text == "0." + Text(Zeros(-a - 1) + d)
  {
    hide Val, Text, Shortest, Zeros, SpellPoint, SpellSuffix;
    var n := Laid(d, exp);
    SpellParts(n);
    NoMark();
    if exp > 0 || a < -6 {
      SuffixParts(a, x);
      PointParts(n);
      NothingBefore(Text(d[..1]), SpellPoint(n), SpellSuffix(n.suffix));
    } else {
      NoSuffixText();
      PointParts(n);
      if exp == 0 { assert d[..|d|] == d; }
      if a < 0 { ZeroText(); }
      NothingBefore(Text(n.whole), SpellPoint(n), "");
    }
  }

  lemma NothingBefore(a: string, b: string, c: string)
    ensures "" + a + b + c == a + b + c && a + "" + c == a + c && a + b + "" == a + b && a + "" == a
  {}

  lemma PointParts(n: Numeral)
    requires WellFormed(n)
    ensures SpellPoint(n) == if n.point then "." + Text(n.fraction) else ""
  {}

  lemma SuffixParts(e: int, x: seq<nat>)
    requires AreDigits(x) && |x| > 0
    ensures SpellSuffix(Exponent('E', if e < 0 then Minus else Plus, x)) == (if e < 0 then "E-" else "E+") + Text(x)
  {
    hide Text;
  }

  lemma ZeroText()
    ensures Text([0]) == "0"
  {}

  /** Exponential form is used exactly when the exponent is positive or the adjusted exponent below -6. */
  lemma ExponentIffNeeded(neg: bool, c: nat, exp: int)
    ensures 'E' in Printed(Value(Finite(neg, c, exp))) <==> exp > 0 || NumDigits(c) - 1 + exp < -6
  {
    hide Val, Shortest, Zeros, NumDigits, Text;
    var d, a := Shortest(c), NumDigits(c) - 1 + exp;
    LaidText(d, exp, a, Shortest(Abs(a)));
    DigitsHaveNoE(d);
    if !(exp > 0 || a < -6) {
      if a >= 0 {
        DigitsHaveNoE(d[..a + 1]);
        DigitsHaveNoE(d[a + 1..]);
      } else {
        ZerosThenDigits(-a - 1, d);
        DigitsHaveNoE(Zeros(-a - 1) + d);
      }
    }
    SignHasNoE(neg);
  }

  lemma ZerosThenDigits(n: nat, d: seq<nat>)
    requires AreDigits(d)
    ensures AreDigits(Zeros(n) + d)
  {}

  lemma DigitsHaveNoE(d: seq<nat>)
    requires AreDigits(d)
    ensures 'E' !in Text(d)
  {}

  lemma SignHasNoE(neg: bool)
    ensures 'E' !in SpellMark(SignMark(neg))
  {}

  /** Infinities and NaNs: a NaN's payload follows the word unless it is zero. */
  lemma PrintedWords(neg: bool, signalling: bool, payload: nat, x: seq<nat>)
    requires Writes(x, payload)
    ensures var sign := if neg then "-" else "";
      && Printed(Value(Infinite(neg))) == sign + "Infinity"
      && Printed(NanValue(neg, signalling, payload)) ==
           sign + ((if signalling then "sNaN" else "NaN") + if payload == 0 then "" else Text(x))
  {
    hide Val, Text, Shortest;
    WrittenIsShortest(x, payload);
  }

  /* ---- decFloatToString ---- */

  method PutText(text: array<char>, c: nat, w: string) returns (end: nat)
    requires c + |w| <= text.Length
    modifies text
    ensures end == c + |w| && text[..end] == old(text[..c]) + w
  {
    forall i | 0 <= i < |w| { text[c + i] := w[i]; }
    end := c + |w|;
    assert text[..end] == text[..c] + text[c..end];
  }

  lemma PrintedBounds(t: TextFormat, c: nat, exp: int)
    requires t.Valid() && c < Pow(10, t.f.p) && t.f.etiny <= exp <= t.f.etop
    ensures NumDigits(c) <= t.f.p && Abs(NumDigits(c) + exp - 1) < 10000
  {
    hide Pow;
    NumDigitsAtMost(c, t.f.p);
    SmallPowers();
    PowMono(10, t.emaxd, 4);
    PowAdd(10, 3, 1);
  }

  /** decFloatToString: p + 9 characters are enough for the text and its terminator. */
  method ToString(t: TextFormat, d: Datum) returns (text: array<char>, end: nat)
    requires t.Valid() && t.f.p % 3 == 1 && Held(t.f, d)
    ensures fresh(text) && text.Length == t.f.p + 9
    ensures end < text.Length && text[..end] == Printed(d) && text[end] == '\0'
  {
    hide Text, Shortest, Pow, Spell, Laid, NumDigits;
    text := new char[t.f.p + 9];
    var c := 0;
    if DatumSign(d) { text[0] := '-'; c := 1; }
    ghost var sign := text[..c];
    assert sign == SpellMark(SignMark(DatumSign(d)));
    match d {
      case Value(Infinite(_)) =>
        end := PutText(text, c, "Infinity");
        Terminate(text, end);
      case Value(Finite(_, coeff, exp)) =>
        PrintedBounds(t, coeff, exp);
        var cstart := c;
        c := PutCoefficient(t.f.p, text, cstart, coeff);
        end := LayOut(text, cstart, c, exp, sign, Shortest(coeff));
      case NanValue(_, signalling, payload) =>
        end := PutNan(t.f.p, text, c, signalling, payload);
    }
  }

  method PutWord(text: array<char>, c0: nat, signalling: bool) returns (c: nat)
    requires c0 + 4 <= text.Length
    modifies text
    ensures c <= c0 + 4 && text[..c] == old(text[..c0]) + NanWord(signalling)
  {
    c := c0;
    if signalling { c := PutText(text, c, "s"); }
    c := PutText(text, c, "NaN");
  }

  /** The word, and the payload if it is not zero. */
  method PutNan(p: nat, text: array<char>, c0: nat, signalling: bool, payload: nat) returns (end: nat)
    requires p >= 2 && p % 3 == 1 && payload < Pow(10, p - 1) && c0 <= 1 && text.Length == p + 9
    modifies text
    ensures end < text.Length && text[end] == '\0'
    ensures text[..end] ==
      old(text[..c0]) + (NanWord(signalling) + if payload == 0 then "" else Text(Shortest(payload)))
  {
    hide Text, Shortest, Pow, Spell, Laid, NumDigits, NanWord;
    ghost var before := text[..c0];
    var c := PutWord(text, c0, signalling);
    ghost var word := text[..c];
    if payload == 0 {
      end := c;
      Terminate(text, end);
      assert NanWord(signalling) + "" == NanWord(signalling);
      return;
    }
    NumDigitsAtMost(payload, p - 1);
    PowMono(10, p - 1, p);
    var cstart := c;
    c := PutCoefficient(p, text, cstart, payload);
    end := LayOut(text, cstart, c, 0, word, Shortest(payload));
    IntegerSpells(Shortest(payload));
    Regrouped3(before, NanWord(signalling), Text(Shortest(payload)));
  }

  lemma IntegerSpells(d: seq<nat>)
    requires |d| > 0 && AreDigits(d)
    ensures Spell(Laid(d, 0)) == Text(d)
  {
    hide Text, Spell, LaidPlain;
    PlainSpells(d, |d|);
  }

  /* ---- There and back ---- */

  ghost predicate NoTerminator(s: string) { forall i :: 0 <= i < |s| ==> s[i] != '\0' }

  lemma SpellHasNoTerminator(n: Numeral)
    requires WellFormed(n)
    ensures NoTerminator(Spell(n))
  {
    assert NoTerminator(SpellMark(n.mark)) && NoTerminator(Text(n.whole)) && NoTerminator(SpellPoint(n));
    assert NoTerminator(SpellSuffix(n.suffix)) by {
      if n.suffix.Exponent? {
        assert NoTerminator([n.suffix.letter]) && NoTerminator(SpellMark(n.suffix.mark)) &&
            NoTerminator(Text(n.suffix.digits));
      }
    }
    hide Text, SpellMark, SpellPoint, SpellSuffix;
  }

  lemma PrintedHasNoTerminator(d: Datum)
    ensures NoTerminator(Printed(d))
  {
    hide Spell, Laid, Shortest;
    match d {
      case Value(Finite(_, c, exp)) => SpellHasNoTerminator(Laid(Shortest(c), exp));
      case _ =>
    }
  }

  /** A printed coefficient is never the one the reader fails to copy. */
  lemma PrintedIsCopied(t: TextFormat, d: Datum)
    requires t.Valid() && Held(t.f, d)
    ensures !NothingCopied(t, Printed(d))
  {
    hide Pow, Val, Spell, Laid, Shortest, Read, Reads;
    match d {
      case Value(Finite(neg, c, exp)) =>
        var n := Laid(Shortest(c), exp);
        MarkedSpells(n, SignMark(neg));
        SpellReads(n.(mark := SignMark(neg)));
        NumDigitsAtMost(c, t.f.p);
        FewWholeDigits(Shortest(c), exp);
      case Value(Infinite(neg)) => InfinityReadsBack(t, Down, neg);
      case NanValue(_, _, _) => NanReadsBack(t, Down, d);
    }
  }

  lemma FewWholeDigits(d: seq<nat>, exp: int)
    requires |d| > 0 && AreDigits(d)
    ensures |Laid(d, exp).whole| <= |d|
  {
    hide Shortest, Zeros;
  }

  /** Printing and reading back returns every value unchanged and leaves the status alone. */
  method PrintAndRead(t: TextFormat, d: Datum, ctx: DecContext) returns (r: Datum)
    requires t.Valid() && t.f.p % 3 == 1 && Held(t.f, d)
    modifies ctx`status
    ensures r == d && ctx.status == old(ctx.status)
  {
    hide Printed, Reads, Read, Held, NothingCopied;
    var text, end := ToString(t, d);
    PrintedHasNoTerminator(d);
    PrintedIsCopied(t, d);
    PrintedReadsBack(t, ctx.round, d);
    r := FromString(t, text[..end], ctx);
  }
}
