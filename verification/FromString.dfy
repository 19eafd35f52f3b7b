/** decFloatFromString. */
module StringReader {
  import opened Arith
  import opened Digits
  import opened Rounding
  import opened Sticky
  import opened Context
  import opened ExactSum
  import opened Finalizer
  import opened NumericString

  /* ---- The first scan ---- */

  /** The coefficient lies in s[cfirst..c], with a point at dotAt if there is one. */
  ghost predicate Scanned(s: string, cfirst: nat, c: nat, dotted: bool, dotAt: nat) {
    && cfirst == AfterMark(s, 0) && cfirst <= c <= |s|
    && (if dotted
        then cfirst <= dotAt < c && s[dotAt] == '.' && AllDigits(s, cfirst, dotAt) && AllDigits(s, dotAt + 1, c)
        else AllDigits(s, cfirst, c))
    && (c < |s| ==> !IsDigit(s[c]) && (s[c] == '.' ==> dotted))
  }

  method ScanCoefficient(s: string) returns (neg: bool, cfirst: nat, c: nat, dotted: bool, dotAt: nat)
    ensures Scanned(s, cfirst, c, dotted, dotAt) && neg == (MarkAt(s, 0) == Minus)
  {
    neg, cfirst, c, dotted, dotAt := false, 0, 0, false, 0;
    while true
      invariant c <= |s| && cfirst == (if c == 0 then 0 else AfterMark(s, 0)) && cfirst <= c
      invariant neg == (c > 0 && MarkAt(s, 0) == Minus)
      invariant if dotted
                then cfirst <= dotAt < c && s[dotAt] == '.' && AllDigits(s, cfirst, dotAt) && AllDigits(s, dotAt + 1, c)
                else AllDigits(s, cfirst, c)
      decreases |s| - c
    {
      if c == |s| { break; }
      if IsDigit(s[c]) {
        c := c + 1;
        continue;
      }
      if s[c] == '.' {
        if dotted { break; }
        dotted, dotAt := true, c;
        c := c + 1;
        continue;
      }
      if c == 0 && s[c] == '-' {
        cfirst, neg, c := 1, true, 1;
        continue;
      }
      if c == 0 && s[c] == '+' {
        cfirst, c := 1, 1;
        continue;
      }
      break;
    }
  }

  lemma FirstDigitOf(s: string, i: nat, j: nat)
    requires i < j <= |s| && IsDigit(s[i])
    ensures DigitsIn(s, i, j) == [DigitOf(s[i])] + DigitsIn(s, i + 1, j)
  {
    hide *;
    DigitsInJoin(s, i, i + 1, j);
    DigitsInOne(s, i);
  }

  lemma FirstPointOf(s: string, i: nat, j: nat)
    requires i < j <= |s| && !IsDigit(s[i])
    ensures DigitsIn(s, i, j) == DigitsIn(s, i + 1, j)
  {
    hide *;
    DigitsInJoin(s, i, i + 1, j);
    DigitsInOne(s, i);
  }

  /** How many digits the coefficient has. */
  function DigitCount(cfirst: nat, c: nat, dotted: bool): int {
    c - cfirst - if dotted then 1 else 0
  }

  lemma ScannedRuns(s: string, cfirst: nat, c: nat, dotted: bool, dotAt: nat)
    requires Scanned(s, cfirst, c, dotted, dotAt)
    ensures if dotted then Run(s, cfirst) == dotAt && Run(s, dotAt + 1) == c else Run(s, cfirst) == c
    ensures DigitsIn(s, cfirst, c) ==
      if dotted then DigitsIn(s, cfirst, dotAt) + DigitsIn(s, dotAt + 1, c) else DigitsIn(s, cfirst, c)
    ensures |DigitsIn(s, cfirst, c)| == DigitCount(cfirst, c, dotted)
  {
    hide Run, DigitsIn, Text, MarkAt, AfterMark;
    if dotted {
      RunIs(s, cfirst, dotAt);
      RunIs(s, dotAt + 1, c);
      DigitsInRun(s, cfirst, dotAt);
      DigitsInRun(s, dotAt + 1, c);
      DigitsInJoin(s, cfirst, dotAt, c);
      FirstPointOf(s, dotAt, c);
    } else {
      RunIs(s, cfirst, c);
      DigitsInRun(s, cfirst, c);
    }
  }

  /** Neither digits nor point: only a special value is left. */
  lemma ScannedNothing(s: string, cfirst: nat, c: nat, dotted: bool, dotAt: nat)
    requires Scanned(s, cfirst, c, dotted, dotAt) && c == cfirst
    ensures Read(s) == ReadSpecial(s, MarkAt(s, 0), cfirst)
  {
    ScannedRuns(s, cfirst, c, dotted, dotAt);
    hide Run, DigitsIn, ReadSpecial, ReadSuffix;
  }

  lemma ScannedNumber(s: string, cfirst: nat, c: nat, dotted: bool, dotAt: nat)
    requires Scanned(s, cfirst, c, dotted, dotAt) && c > cfirst
    ensures DigitCount(cfirst, c, dotted) == 0 || !ReadSuffix(s, c).0 ==> Read(s) == Malformed
    ensures DigitCount(cfirst, c, dotted) > 0 && ReadSuffix(s, c).0 ==> Read(s).Number? && var n := Read(s).numeral;
      && n.mark == MarkAt(s, 0) && n.suffix == ReadSuffix(s, c).1 && n.point == dotted
      && n.digits == DigitsIn(s, cfirst, c) && |n.fraction| == (if dotted then c - 1 - dotAt else 0)
  {
    ScannedRuns(s, cfirst, c, dotted, dotAt);
    if dotted { DigitsInRun(s, dotAt + 1, c); }
    hide Run, DigitsIn, ReadSpecial, ReadSuffix;
  }

  /* ---- The exponent ---- */

  lemma {:induction false} DropLeadingZeros(s: string, i: nat, j: nat, k: nat)
    requires i <= j <= k <= |s| && forall l :: i <= l < j ==> s[l] == '0'
    requires AllDigits(s, j, k) && (j < k ==> s[j] != '0')
    ensures Significant(DigitsIn(s, i, k)) == DigitsIn(s, j, k)
    decreases j - i
  {
    hide DigitsIn, Text, Significant;
    if i == j {
      DigitsInRun(s, j, k);
      NoZeroFirst(DigitsIn(s, j, k));
    } else {
      DropLeadingZeros(s, i + 1, j, k);
      FirstDigitOf(s, i, k);
      ZeroFirst(DigitsIn(s, i + 1, k));
    }
  }

  lemma ZeroFirst(d: seq<nat>)
    ensures Significant([0] + d) == Significant(d)
  {
    assert ([0] + d)[1..] == d;
  }

  lemma NoZeroFirst(d: seq<nat>)
    requires d != [] ==> d[0] != 0
    ensures Significant(d) == d
  {}

  /** The digits of the exponent, as a number and without leading zeros. */
  method ScanExponentDigits(s: string, j: nat) returns (exp: nat, firstexp: nat, c: nat)
    requires j <= |s|
    ensures j <= firstexp <= c <= |s| && Run(s, j) == c
    ensures c == |s| ==>
      Significant(DigitsIn(s, j, |s|)) == DigitsIn(s, firstexp, |s|) && exp == Val(DigitsIn(s, firstexp, |s|))
      && |DigitsIn(s, firstexp, |s|)| == |s| - firstexp
  {
    c := j;
    while c < |s| && s[c] == '0'
      invariant j <= c <= |s| && forall l :: j <= l < c ==> s[l] == '0'
    {
      c := c + 1;
    }
    firstexp, exp := c, 0;
    while c < |s| && IsDigit(s[c])
      invariant firstexp <= c <= |s| && AllDigits(s, firstexp, c) && exp == Val(DigitsIn(s, firstexp, c))
    {
      ValAppend(DigitsIn(s, firstexp, c), DigitOf(s[c]));
      exp := exp * 10 + DigitOf(s[c]);
      c := c + 1;
    }
    RunIs(s, j, c);
    DropLeadingZeros(s, j, firstexp, c);
    DigitsInRun(s, firstexp, c);
  }

  method ScanExponent(t: TextFormat, s: string, c0: nat) returns (ok: bool, exp: int)
    requires c0 < |s|
    ensures ok == ReadSuffix(s, c0).0
    ensures ok ==> exp == CodeExponent(t, ReadSuffix(s, c0).1)
  {
    hide Val, Run, DigitsIn, Significant;
    ok, exp := false, 0;
    if s[c0] != 'E' && s[c0] != 'e' { return; }
    var j := c0 + 1;
    if j < |s| && (s[j] == '-' || s[j] == '+') { j := j + 1; }
    if j == |s| { return; }
    var firstexp, c;
    exp, firstexp, c := ScanExponentDigits(s, j);
    if c != |s| { return; }
    ok := true;
    SignificantValue(DigitsIn(s, j, |s|));
    if c > firstexp + t.emaxd { exp := 2 * t.f.emax; }
    if s[c0 + 1] == '-' { exp := -exp; }
  }

  /* ---- Copying digits ---- */

  predicate FourDigits(s: string, c: nat)
    requires c + 3 < |s|
  {
    IsDigit(s[c]) && IsDigit(s[c + 1]) && IsDigit(s[c + 2]) && IsDigit(s[c + 3])
  }

  method CopyOne(s: string, c: nat, buffer: array<nat>, ub: nat, ghost i: nat)
    requires i <= c < |s| && IsDigit(s[c]) && ub < buffer.Length && buffer[..ub] == DigitsIn(s, i, c)
    modifies buffer
    ensures buffer[..ub + 1] == DigitsIn(s, i, c + 1)
  {
    buffer[ub] := DigitOf(s[c]);
    assert buffer[..ub] == DigitsIn(s, i, c);
    assert buffer[..ub + 1] == buffer[..ub] + [buffer[ub]];
  }

  method CopyFour(s: string, c: nat, buffer: array<nat>, ub: nat, ghost i: nat)
    requires i <= c && c + 3 < |s| && FourDigits(s, c) && ub + 4 <= buffer.Length && buffer[..ub] == DigitsIn(s, i, c)
    modifies buffer
    ensures buffer[..ub + 4] == DigitsIn(s, i, c + 4)
  {
    hide DigitsIn;
    CopyOne(s, c, buffer, ub, i);
    CopyOne(s, c + 1, buffer, ub + 1, i);
    CopyOne(s, c + 2, buffer, ub + 2, i);
    CopyOne(s, c + 3, buffer, ub + 3, i);
  }

  /** Digits with no point among them, by fours and then singly. */
  method CopyDigits(s: string, from: nat, to: nat, buffer: array<nat>, at: nat, ghost i: nat)
    requires i <= from <= to <= |s| && AllDigits(s, from, to) && at + (to - from) <= buffer.Length
    requires buffer[..at] == DigitsIn(s, i, from)
    modifies buffer
    ensures buffer[..at + (to - from)] == DigitsIn(s, i, to)
  {
    hide DigitsIn;
    var c, ub := from, at;
    while c + 3 < to
      invariant from <= c <= to && ub == at + (c - from) && buffer[..ub] == DigitsIn(s, i, c)
    {
      CopyFour(s, c, buffer, ub, i);
      c, ub := c + 4, ub + 4;
    }
    while c < to
      invariant from <= c <= to && ub == at + (c - from) && buffer[..ub] == DigitsIn(s, i, c)
    {
      CopyOne(s, c, buffer, ub, i);
      c, ub := c + 1, ub + 1;
    }
  }

  lemma StepOverPoint(s: string, i: nat, c: nat)
    requires i <= c < |s| && s[c] == '.'
    ensures DigitsIn(s, i, c + 1) == DigitsIn(s, i, c)
  {}

  lemma NoneYet(s: string, i: nat)
    requires i <= |s|
    ensures DigitsIn(s, i, i) == []
  {}

  /** A coefficient that fits in the buffer is copied as it is. */
  method GatherShort(s: string, cfirst: nat, end: nat, dotted: bool, ghost dotAt: nat, buffer: array<nat>)
    requires Scanned(s, cfirst, end, dotted, dotAt) && 0 < DigitCount(cfirst, end, dotted) <= buffer.Length
    modifies buffer
    ensures buffer[..DigitCount(cfirst, end, dotted)] == DigitsIn(s, cfirst, end)
  {
    hide DigitsIn;
    NoneYet(s, cfirst);
    assert buffer[..0] == [];
    var c, ub := cfirst, 0;
    if dotted {
      StepOverPoint(s, cfirst, dotAt);
      if s[c + 1] == '.' && s[c] != '.' {
        CopyOne(s, c, buffer, ub, cfirst);
        c, ub := c + 2, ub + 1;
      } else {
        while s[c] != '.'
          invariant cfirst <= c <= dotAt && ub == c - cfirst && buffer[..ub] == DigitsIn(s, cfirst, c)
          decreases dotAt - c
        {
          if c + 3 < end && FourDigits(s, c) {
            CopyFour(s, c, buffer, ub, cfirst);
            c, ub := c + 4, ub + 4;
          } else {
            CopyOne(s, c, buffer, ub, cfirst);
            c, ub := c + 1, ub + 1;
          }
        }
        c := c + 1;
      }
    }
    CopyDigits(s, c, end, buffer, ub, cfirst);
  }

  /* ---- A coefficient too long for the buffer ---- */

  /** Digits and at most a point. */
  ghost predicate IsCoefficient(s: string, i: nat, j: nat)
    requires j <= |s|
  {
    forall k :: i <= k < j ==> IsDigit(s[k]) || s[k] == '.'
  }

  /** Strips leading zeros, but not the last digit. */
  method StripZeros(s: string, cfirst0: nat, clast: nat, digits0: int) returns (cfirst: nat, digits: int)
    requires cfirst0 <= clast < |s| && IsCoefficient(s, cfirst0, clast + 1) && IsDigit(s[cfirst0])
    requires digits0 == |DigitsIn(s, cfirst0, clast + 1)|
    ensures cfirst0 <= cfirst <= clast && digits == |DigitsIn(s, cfirst, clast + 1)|
    ensures Val(DigitsIn(s, cfirst, clast + 1)) == Val(DigitsIn(s, cfirst0, clast + 1))
    ensures cfirst < clast ==> IsDigit(s[cfirst]) && s[cfirst] != '0'
    ensures s[clast] == '.' ==> (cfirst == clast <==> Val(DigitsIn(s, cfirst0, clast + 1)) == 0)
  {
    hide DigitsIn, Val;
    cfirst, digits := cfirst0, digits0;
    if s[cfirst] == '0' {
      while cfirst < clast
        invariant cfirst0 <= cfirst <= clast && digits == |DigitsIn(s, cfirst, clast + 1)|
        invariant Val(DigitsIn(s, cfirst, clast + 1)) == Val(DigitsIn(s, cfirst0, clast + 1))
        decreases clast - cfirst
      {
        if s[cfirst] != '0' {
          if s[cfirst] == '.' {
            FirstPointOf(s, cfirst, clast + 1);
            cfirst := cfirst + 1;
            continue;
          }
          break;
        }
        FirstDigitOf(s, cfirst, clast + 1);
        ValSkipZero(DigitsIn(s, cfirst, clast + 1));
        assert DigitsIn(s, cfirst, clast + 1)[1..] == DigitsIn(s, cfirst + 1, clast + 1);
        digits := digits - 1;
        cfirst := cfirst + 1;
      }
    }
    OnlyPoint(s, clast);
    if cfirst < clast && s[cfirst] != '0' { NonZeroFirst(s, cfirst, clast + 1); }
  }

  lemma NonZeroFirst(s: string, i: nat, j: nat)
    requires i < j <= |s| && IsDigit(s[i]) && s[i] != '0'
    ensures Val(DigitsIn(s, i, j)) > 0
  {
    hide DigitsIn, Val;
    FirstDigitOf(s, i, j);
    ValLeading(DigitsIn(s, i, j));
  }

  lemma OnlyPoint(s: string, i: nat)
    requires i < |s|
    ensures s[i] == '.' ==> DigitsIn(s, i, i + 1) == [] && Val(DigitsIn(s, i, i + 1)) == 0
  {}

  /** Copies digits until p + 1 of them or a few more have been copied. */
  method CopyLong(p: nat, s: string, cfirst: nat, clast: nat, buffer: array<nat>) returns (c: nat, ub: nat)
    requires cfirst <= clast < |s| && IsCoefficient(s, cfirst, clast + 1) && p + 4 <= buffer.Length
    modifies buffer
    ensures cfirst <= c <= clast + 1 && ub <= buffer.Length && buffer[..ub] == DigitsIn(s, cfirst, c)
    ensures c <= clast ==> ub > p
  {
    hide DigitsIn;
    NoneYet(s, cfirst);
    assert buffer[..0] == [];
    c, ub := cfirst, 0;
    while c <= clast && ub <= p
      invariant cfirst <= c <= clast + 1 && ub <= p + 4 && buffer[..ub] == DigitsIn(s, cfirst, c)
      decreases clast + 1 - c
    {
      if c + 3 <= clast && FourDigits(s, c) {
        CopyFour(s, c, buffer, ub, cfirst);
        c, ub := c + 4, ub + 4;
      } else if s[c] == '.' {
        StepOverPoint(s, cfirst, c);
        c := c + 1;
      } else {
        CopyOne(s, c, buffer, ub, cfirst);
        c, ub := c + 1, ub + 1;
      }
    }
  }

  /** Makes the last digit copied a re-round digit if anything but zeros was left out. */
  method NoteRest(s: string, c0: nat, clast: nat, buffer: array<nat>, last: nat)
    requires c0 <= clast + 1 <= |s| && IsCoefficient(s, c0, clast + 1) && last < buffer.Length && buffer[last] <= 9
    modifies buffer
    ensures forall i :: 0 <= i < buffer.Length && i != last ==> buffer[i] == old(buffer[i])
    ensures buffer[last] ==
      if Val(DigitsIn(s, c0, clast + 1)) != 0 then StickyTab(old(buffer[last])) else old(buffer[last])
  {
    hide DigitsIn, Val, StickyTab;
    var c := c0;
    while c <= clast
      invariant c0 <= c <= clast + 1 && buffer[last] == old(buffer[last])
      invariant forall i :: 0 <= i < buffer.Length && i != last ==> buffer[i] == old(buffer[i])
      invariant Val(DigitsIn(s, c, clast + 1)) == Val(DigitsIn(s, c0, clast + 1))
      decreases clast + 1 - c
    {
      if s[c] != '0' {
        if s[c] == '.' {
          FirstPointOf(s, c, clast + 1);
          c := c + 1;
          continue;
        }
        FirstDigitOf(s, c, clast + 1);
        ValLeading(DigitsIn(s, c, clast + 1));
        buffer[last] := StickyTab(buffer[last]);
        return;
      }
      FirstDigitOf(s, c, clast + 1);
      ValSkipZero(DigitsIn(s, c, clast + 1));
      assert DigitsIn(s, c, clast + 1)[1..] == DigitsIn(s, c + 1, clast + 1);
      c := c + 1;
    }
    NoneLeft(s, clast + 1);
  }

  lemma NoneLeft(s: string, i: nat)
    requires i <= |s|
    ensures DigitsIn(s, i, i) == [] && Val(DigitsIn(s, i, i)) == 0
  {}

  /* ---- Why a shortened coefficient rounds as the whole one ---- */

  /** The digits kept, the last of them standing for what follows. */
  function Shortened(kept: seq<nat>, rest: seq<nat>): (d: seq<nat>)
    requires AreDigits(kept) && |kept| > 0
    ensures |d| == |kept| && AreDigits(d)
  {
    kept[|kept| - 1 := if Val(rest) != 0 then StickyTab(kept[|kept| - 1]) else kept[|kept| - 1]]
  }

  lemma ShortenedRounds(f: Format, mode: Mode, neg: bool, kept: seq<nat>, rest: seq<nat>, e: int)
    requires f.Valid() && AreDigits(kept) && AreDigits(rest) && |kept| > 0
    requires rest != [] ==> |kept| > f.p && kept[0] != 0
    ensures RoundScaled(f, mode, neg, Val(Shortened(kept, rest)), e + |rest|)
         == RoundScaled(f, mode, neg, Val(kept + rest), e)
  {
    hide Val, Pow, RoundScaled, StickyTab;
    if rest == [] {
      assert kept + rest == kept;
      EmptyRest(kept, rest);
    } else {
      ValConcat(kept, rest);
      ValBound(rest);
      ValLeading(kept);
      PowMono(10, f.p, |kept| - 1);
      if Val(rest) == 0 {
        assert Shortened(kept, rest) == kept;
        ZerosRound(f, mode, neg, Val(kept), |kept|, e, |rest|);
      } else {
        StickyValue(kept, rest);
        StickyRounds(f, mode, neg, Val(kept), Val(Shortened(kept, rest)), Val(rest), e, |rest|);
      }
    }
  }

  lemma ZerosRound(f: Format, mode: Mode, neg: bool, c: nat, digits: nat, e: int, m: nat)
    requires f.Valid() && digits > f.p && Pow(10, digits - 1) <= c
    ensures c * Pow(10, m) >= 0 && RoundScaled(f, mode, neg, c, e + m) == RoundScaled(f, mode, neg, c * Pow(10, m), e)
  {
    hide *;
    AlignedParts(c, e, m);
    IdealIrrelevant(f, mode, neg, c, e + m, e, e + m, digits);
  }

  lemma StickyRounds(f: Format, mode: Mode, neg: bool, c: nat, x: nat, rest: nat, e: int, m: nat)
    requires f.Valid() && Pow(10, f.p) <= c && c - c % 5 < x < c - c % 5 + 5 && 0 < rest < Pow(10, m)
    ensures c * Pow(10, m) >= 0
    ensures RoundScaled(f, mode, neg, x, e + m) == RoundScaled(f, mode, neg, c * Pow(10, m) + rest, e)
  {
    hide *;
    CellOfFive(f, f.etiny - (e + m), c);
    var lo := c - c % 5;
    StandInWithin(x, lo, e + m);
    RestWithin(c, lo, rest, e, m);
    PositiveDigits(f);
    SameCellScaled(f, mode, neg, x, e + m, c * Pow(10, m) + rest, e, lo, 5, 0, e + m);
  }

  lemma PositiveDigits(f: Format)
    requires f.Valid()
    ensures f.p > 0
  {}

  lemma EmptyRest(kept: seq<nat>, rest: seq<nat>)
    requires AreDigits(kept) && |kept| > 0 && rest == []
    ensures Shortened(kept, rest) == kept
  {}

  lemma AlignedParts(c: nat, e: int, m: nat)
    ensures Aligned(c, e + m, e) == c * Pow(10, m) && Aligned(c, e + m, e + m) == c
  {}

  /** The stand-in lies strictly within the cell of five that the last digit kept begins or lies in. */
  lemma StickyValue(kept: seq<nat>, rest: seq<nat>)
    requires AreDigits(kept) && |kept| > 0 && Val(rest) != 0
    ensures var c, lo := Val(kept), Val(kept) - Val(kept) % 5; lo < Val(Shortened(kept, rest)) < lo + 5
  {
    var n := |kept| - 1;
    var d := kept[n];
    assert Shortened(kept, rest)[..n] == kept[..n];
    var x := Val(kept[..n]);
    DivModUnique(10 * x + d, 5, 2 * x + d / 5, d % 5);
  }

  lemma CellOfFive(f: Format, s: int, c: nat)
    requires f.Valid() && Pow(10, f.p) <= c
    ensures c % 5 <= c && FineCell(f, s, c - c % 5, 5, 0)
  {
    SmallPowers();
    assert Pow(10, f.p) == 5 * (2 * Pow(10, f.p - 1));
    hide Pow;
    DivBounds(c, 5);
    DivGe(c, 5, 2 * Pow(10, f.p - 1));
    DivModUnique(c - c % 5, 5, c / 5, 0);
  }


  lemma RestWithin(c: nat, lo: nat, rest: nat, e: int, m: nat)
    requires lo == c - c % 5 && 0 < rest < Pow(10, m)
    ensures c * Pow(10, m) >= 0 && Within(c * Pow(10, m) + rest, e, lo, 5, e + m)
  {
    hide Pow;
    var t := Pow(10, m);
    MulMono(0, c, t);
    MulMono(lo, c, t);
    MulMono(c + 1, lo + 5, t);
    assert (c + 1) * t == c * t + t;
    AlignedParts(lo, e, m);
    AlignedParts(lo + 5, e, m);
    AlignedParts(c * t + rest, e, 0);
    NoPower(c * t + rest);
    hide Aligned;
  }

  lemma NoPower(x: nat)
    ensures x * Pow(10, 0) == x
  {}

  /* ---- The numeral ---- */

  /** An all-zero coefficient too long for the buffer and ending in a point: no digit is copied at all. */
  ghost predicate NothingCopied(t: TextFormat, s: string) {
    Read(s).Number? && var n := Read(s).numeral;
    |n.whole| > t.room && n.point && n.fraction == [] && Val(n.whole) == 0
  }

  lemma SomeDigit(s: string, i: nat, j: nat)
    requires i < j <= |s| && IsDigit(s[i])
    ensures |DigitsIn(s, i, j)| > 0 && DigitsIn(s, i, j)[0] == DigitOf(s[i])
  {
    FirstDigitOf(s, i, j);
  }

  /** Gathers a coefficient too long for the buffer: at least p + 1 of its significant digits are kept,
      and the last of them notes whether the rest is zero. */
  method GatherLong(t: TextFormat, s: string, cfirst0: nat, clast: nat, buffer: array<nat>, digits0: nat, exp: int,
                    ghost mode: Mode, ghost neg: bool)
    returns (ub: nat, exponent: int)
    requires t.Valid() && buffer.Length == t.room + 3
    requires cfirst0 < clast < |s| && IsCoefficient(s, cfirst0, clast + 1)
    requires s[cfirst0] == '.' ==> IsDigit(s[cfirst0 + 1])
    requires digits0 == |DigitsIn(s, cfirst0, clast + 1)|
    modifies buffer
    ensures ub <= buffer.Length && AreDigits(buffer[..ub])
    ensures ub == 0 <==> s[clast] == '.' && Val(DigitsIn(s, cfirst0, clast + 1)) == 0
    ensures ub > 0 ==>
      RoundScaled(t.f, mode, neg, Val(buffer[..ub]), exponent)
      == RoundScaled(t.f, mode, neg, Val(DigitsIn(s, cfirst0, clast + 1)), exp)
  {
    hide DigitsIn, Val, Pow, RoundScaled, StickyTab;
    var cfirst, digits := cfirst0, digits0;
    if s[cfirst] == '.' {
      FirstPointOf(s, cfirst, clast + 1);
      cfirst := cfirst + 1;
    }
    cfirst, digits := StripZeros(s, cfirst, clast, digits);
    var c;
    c, ub := CopyLong(t.f.p, s, cfirst, clast, buffer);
    DigitsInJoin(s, cfirst, c, clast + 1);
    if IsDigit(s[cfirst]) && c > cfirst { SomeDigit(s, cfirst, c); }
    if cfirst == clast && s[clast] == '.' { LastChar(s, clast, c); }
    exponent := exp;
    if ub > 0 {
      ghost var kept, rest := DigitsIn(s, cfirst, c), DigitsIn(s, c, clast + 1);
      if c > clast { NoneYet(s, clast + 1); }
      assert buffer[ub - 1] == buffer[..ub][ub - 1];
      NoteRest(s, c, clast, buffer, ub - 1);
      assert buffer[..ub] == Shortened(kept, rest);
      exponent := exp + (digits - ub);
      ShortenedRounds(t.f, mode, neg, kept, rest, exp);
    }
  }

  lemma LastChar(s: string, clast: nat, c: nat)
    requires clast < |s| && clast <= c <= clast + 1 && s[clast] == '.'
    ensures DigitsIn(s, clast, c) == []
  {}

  lemma NothingCopiedIs(t: TextFormat, s: string, cfirst: nat, c: nat, dotted: bool, dotAt: nat)
    requires Scanned(s, cfirst, c, dotted, dotAt) && DigitCount(cfirst, c, dotted) > 0 && ReadSuffix(s, c).0
    ensures NothingCopied(t, s) <==>
      DigitCount(cfirst, c, dotted) > t.room && s[c - 1] == '.' && Val(DigitsIn(s, cfirst, c)) == 0
  {
    hide DigitsIn, Val, Read, ReadSuffix, MarkAt, AfterMark;
    ScannedNumber(s, cfirst, c, dotted, dotAt);
    ScannedRuns(s, cfirst, c, dotted, dotAt);
    var n := Read(s).numeral;
    if n.fraction == [] { assert n.whole + n.fraction == n.whole; }
    if s[c - 1] == '.' { assert dotted && dotAt == c - 1; }
  }

  /** Converts a string whose coefficient has digits or a point. A string that NothingCopied describes makes
      the code finalize digits it never stored; nothing is known of the result then. */
  method ReadNumeral(t: TextFormat, s: string, neg: bool, cfirst: nat, c: nat, dotted: bool, dotAt: nat,
                     ctx: DecContext)
    returns (ok: bool, df: Rounding.Number)
    requires t.Valid() && Scanned(s, cfirst, c, dotted, dotAt) && c > cfirst && neg == (MarkAt(s, 0) == Minus)
    modifies ctx`status
    ensures ok == Read(s).Number? && (!ok ==> Read(s).Malformed? && ctx.status == old(ctx.status))
    ensures ok && !NothingCopied(t, s) ==> var r := Reads(t, ctx.round, s);
      r.datum == Value(df) && ctx.status == old(ctx.status) + r.raised
  {
    hide DigitsIn, Val, Pow, RoundScaled, Read, ReadSuffix, CodeExponent, MarkAt, AfterMark, Run;
    ScannedNumber(s, cfirst, c, dotted, dotAt);
    ok, df := false, Rounding.NaN(false);
    var digits := c - cfirst;
    var exp := 0;
    if c < |s| {
      var valid;
      valid, exp := ScanExponent(t, s, c);
      if !valid { return; }
    } else {
      NoSuffix(t, s);
    }
    if dotted {
      digits := digits - 1;
      if digits == 0 { return; }
      exp := exp - (c - 1 - dotAt);
    }
    ok := true;
    ghost var copied;
    df, copied := ReadCoefficient(t, s, neg, cfirst, c, dotted, dotAt, digits, exp, ctx);
  }

  /** The coefficient, once the whole string is known to be good. */
  method ReadCoefficient(t: TextFormat, s: string, neg: bool, cfirst: nat, c: nat, dotted: bool, dotAt: nat,
                         digits: nat,
                         exp: int, ctx: DecContext)
    returns (df: Rounding.Number, ghost copied: bool)
    requires t.Valid() && Scanned(s, cfirst, c, dotted, dotAt) && digits == DigitCount(cfirst, c, dotted) > 0
    requires ReadSuffix(s, c).0
    modifies ctx`status
    ensures copied <==> !NothingCopied(t, s)
    ensures copied ==> var o := RoundScaled(t.f, ctx.round, neg, Val(DigitsIn(s, cfirst, c)), exp);
      df == o.num && ctx.status == old(ctx.status) + o.raised
  {
    hide DigitsIn, Val, Pow, RoundScaled, Read, ReadSuffix, MarkAt, AfterMark, Run, NothingCopied;
    copied := true;
    NothingCopiedIs(t, s, cfirst, c, dotted, dotAt);
    var buffer := new nat[t.room + 3];
    var ub, exponent := digits, exp;
    if digits <= t.room {
      GatherShort(s, cfirst, c, dotted, dotAt, buffer);
    } else {
      ScannedRuns(s, cfirst, c, dotted, dotAt);
      PointThenDigit(s, cfirst, c, dotted, dotAt);
      ub, exponent := GatherLong(t, s, cfirst, c - 1, buffer, digits, exp, ctx.round, neg);
      if ub == 0 {
        df, copied := *, false;
        ctx.status := *;
        return;
      }
    }
    assert buffer[0..ub - 1 + 1] == buffer[..ub];
    var num := new BcdNum(buffer, 0, ub - 1, neg, exponent);
    df := Finalize(t.f, num, ctx);
  }

  lemma NoSuffix(t: TextFormat, s: string)
    ensures ReadSuffix(s, |s|) == (true, NoExponent) && CodeExponent(t, NoExponent) == 0
  {}

  lemma PointThenDigit(s: string, cfirst: nat, c: nat, dotted: bool, dotAt: nat)
    requires Scanned(s, cfirst, c, dotted, dotAt) && DigitCount(cfirst, c, dotted) > 0
    ensures IsCoefficient(s, cfirst, c)
    ensures s[cfirst] == '.' ==> IsDigit(s[cfirst + 1])
  {
    hide MarkAt, AfterMark;
  }

  /* ---- Infinities and NaNs ---- */

  /** decBiStr */
  method BiStr(s: string, i: nat, lower: string, upper: string) returns (same: bool)
    requires i <= |s| && |lower| == |upper|
    ensures same == Caseless(s, i, lower, upper)
  {
    var k := 0;
    while k < |lower|
      invariant k <= |lower| && i + k <= |s|
      invariant forall l :: 0 <= l < k ==> s[i + l] == lower[l] || s[i + l] == upper[l]
    {
      if i + k == |s| || (s[i + k] != lower[k] && s[i + k] != upper[k]) { return false; }
      k := k + 1;
    }
    return i + k == |s|;
  }

  /** The digits of a payload: what follows the leading zeros must be fewer than p digits and nothing else. */
  method ReadPayload(p: nat, s: string, j: nat) returns (ok: bool, payload: nat)
    requires j <= |s| && p > 0
    ensures ok <==> Run(s, j) == |s| && |Significant(DigitsIn(s, j, |s|))| < p
    ensures ok ==> payload == Val(DigitsIn(s, j, |s|))
  {
    hide DigitsIn, Val, Run, Significant;
    var cfirst := j;
    while cfirst < |s| && s[cfirst] == '0'
      invariant j <= cfirst <= |s| && forall l :: j <= l < cfirst ==> s[l] == '0'
    {
      cfirst := cfirst + 1;
    }
    var buffer := new nat[p];
    var c, ub := cfirst, 0;
    NoneYet(s, cfirst);
    assert buffer[..0] == [];
    while c < |s| && IsDigit(s[c]) && c - cfirst != p - 1
      invariant cfirst <= c <= |s| && ub == c - cfirst <= p - 1 && AllDigits(s, cfirst, c)
      invariant buffer[..ub] == DigitsIn(s, cfirst, c)
    {
      CopyOne(s, c, buffer, ub, cfirst);
      c, ub := c + 1, ub + 1;
    }
    ok := c == |s|;
    if ok {
      RunIs(s, j, |s|);
      DropLeadingZeros(s, j, cfirst, |s|);
      SignificantValue(DigitsIn(s, j, |s|));
    } else {
      PayloadRefused(s, j, cfirst, c, p);
    }
    payload := Val(buffer[..ub]);
  }

  lemma PayloadRefused(s: string, j: nat, cfirst: nat, c: nat, p: nat)
    requires j <= cfirst <= c < |s| && (forall l :: j <= l < cfirst ==> s[l] == '0') && AllDigits(s, cfirst, c)
    requires s[cfirst] != '0' && p > 0 && (!IsDigit(s[c]) || c - cfirst == p - 1)
    ensures Run(s, j) != |s| || |Significant(DigitsIn(s, j, |s|))| >= p
  {
    hide DigitsIn, Significant;
    if Run(s, j) == |s| {
      DropLeadingZeros(s, j, cfirst, |s|);
      DigitsInRun(s, cfirst, |s|);
    }
    hide Run;
  }

  /** The word NaN, in any mixture of cases, and where its payload starts. */
  method ScanNan(s: string, i: nat) returns (ok: bool, signalling: bool, j: nat)
    requires i <= |s|
    ensures signalling == (i < |s| && (s[i] == 's' || s[i] == 'S'))
    ensures var k := if signalling then i + 1 else i; ok == StartsNan(s, k) && (ok ==> j == k + 3 <= |s|)
  {
    signalling, j := false, i;
    if j < |s| && (s[j] == 's' || s[j] == 'S') {
      signalling := true;
      j := j + 1;
    }
    ok := false;
    if !(j < |s| && (s[j] == 'N' || s[j] == 'n')) { return; }
    j := j + 1;
    if !(j < |s| && (s[j] == 'A' || s[j] == 'a')) { return; }
    j := j + 1;
    if !(j < |s| && (s[j] == 'N' || s[j] == 'n')) { return; }
    j := j + 1;
    ok := true;
  }

  /** A string with no digits or point: an infinity, a NaN or an error. */
  method ReadSpecialText(t: TextFormat, s: string, neg: bool, i: nat) returns (ok: bool, r: Datum)
    requires t.Valid() && i == AfterMark(s, 0) && neg == (MarkAt(s, 0) == Minus)
    requires Read(s) == ReadSpecial(s, MarkAt(s, 0), i)
    ensures forall mode :: Reads(t, mode, s) == if ok then Reading(r, {}) else SyntaxError
  {
    hide DigitsIn, Val, Run, RoundScaled, Read, Caseless, StartsNan, Significant, MarkAt, AfterMark;
    ok, r := false, NanValue(false, false, 0);
    if i == |s| {
      EmptySpecial(s, MarkAt(s, 0));
      return;
    }
    var infinity := BiStr(s, i, "infinity", "INFINITY");
    if !infinity { infinity := BiStr(s, i, "inf", "INF"); }
    if infinity {
      return true, Value(Infinite(neg));
    }
    var nan, signalling, j := ScanNan(s, i);
    if !nan { return; }
    var payload;
    ok, payload := ReadPayload(t.f.p, s, j);
    if ok { r := NanValue(neg, signalling, payload); }
  }

  lemma EmptySpecial(s: string, mark: Mark)
    ensures ReadSpecial(s, mark, |s|) == Malformed
  {}

  /** decFloatFromString: whatever the string says, rounded once and with the right flags. */
  method FromString(t: TextFormat, s: string, ctx: DecContext) returns (r: Datum)
    requires t.Valid() && '\0' !in s
    modifies ctx`status
    ensures !NothingCopied(t, s) ==> var o := Reads(t, ctx.round, s);
      r == o.datum && ctx.status == old(ctx.status) + o.raised
  {
    hide Read, Reads, ReadSpecial, Scanned, MarkAt, AfterMark;
    var neg, cfirst, c, dotted, dotAt := ScanCoefficient(s);
    var ok;
    if c > cfirst {
      var df;
      ok, df := ReadNumeral(t, s, neg, cfirst, c, dotted, dotAt, ctx);
      r := Value(df);
      if !ok { MalformedReads(t, ctx.round, s); }
    } else {
      ScannedNothing(s, cfirst, c, dotted, dotAt);
      ok, r := ReadSpecialText(t, s, neg, cfirst);
    }
    if !ok {
      ctx.Raise({ConversionSyntax});
      r := NanValue(false, false, 0);
    }
  }

  lemma MalformedReads(t: TextFormat, mode: Mode, s: string)
    requires t.f.p > 0 && Read(s).Malformed?
    ensures Reads(t, mode, s) == SyntaxError
  {}
}
