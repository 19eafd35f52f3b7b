/** The numeric strings of section 5.12 of IEEE 754-2008: what is spelled how, and what is read back. */
module NumericString {
  import opened Arith
  import opened Digits
  import opened Rounding

  /** A format with its limits on text: emaxd digits in an exponent, and room for a coefficient to be
      copied whole. */
  datatype TextFormat = TextFormat(f: Format, emaxd: nat, room: nat) {
    ghost predicate Valid() {
      && f.Valid() && 1 <= emaxd <= 4 && room > f.p
      && f.emax < Pow(10, emaxd) && -f.etiny < Pow(10, emaxd)
    }
  }

  const DOUBLE_TEXT: TextFormat := TextFormat(DOUBLE, 3, 37)
  const QUAD_TEXT: TextFormat := TextFormat(QUAD, 4, 53)

  lemma BothAreValid()
    ensures DOUBLE_TEXT.Valid() && QUAD_TEXT.Valid()
  {
    SmallPowers();
    assert Pow(10, 4) == 10 * Pow(10, 3);
  }

  /* ---- Characters ---- */

  predicate IsDigit(c: char) { '0' <= c <= '9' }

  function DigitOf(c: char): (d: nat)
    requires IsDigit(c)
    ensures d <= 9
  {
    c as int - '0' as int
  }

  function CharOf(d: nat): (c: char)
    requires d <= 9
    ensures IsDigit(c) && DigitOf(c) == d
  {
    (d + '0' as int) as char
  }

  function Text(s: seq<nat>): (t: string)
    requires AreDigits(s)
    ensures |t| == |s| && forall i :: 0 <= i < |s| ==> t[i] == CharOf(s[i])
  {
    seq(|s|, i requires 0 <= i < |s| => CharOf(s[i]))
  }

  /** The digits among the characters from i up to j. */
  function DigitsIn(s: string, i: nat, j: nat): (d: seq<nat>)
    requires j <= |s|
    ensures AreDigits(d) && |d| <= if i < j then j - i else 0
    decreases j
  {
    if i >= j then [] else DigitsIn(s, i, j - 1) + if IsDigit(s[j - 1]) then [DigitOf(s[j - 1])] else []
  }

  ghost predicate AllDigits(s: string, i: nat, j: nat)
    requires j <= |s|
  {
    forall k :: i <= k < j ==> IsDigit(s[k])
  }

  lemma {:induction false} DigitsInJoin(s: string, i: nat, j: nat, k: nat)
    requires i <= j <= k <= |s|
    ensures DigitsIn(s, i, k) == DigitsIn(s, i, j) + DigitsIn(s, j, k)
  {
    if j < k { DigitsInJoin(s, i, j, k - 1); }
  }

  lemma {:induction false} DigitsInRun(s: string, i: nat, j: nat)
    requires i <= j <= |s| && AllDigits(s, i, j)
    ensures |DigitsIn(s, i, j)| == j - i && forall k :: i <= k < j ==> DigitsIn(s, i, j)[k - i] == DigitOf(s[k])
    ensures Text(DigitsIn(s, i, j)) == s[i..j]
  {
    if i < j {
      DigitsInRun(s, i, j - 1);
      var d := DigitsIn(s, i, j - 1);
      assert DigitsIn(s, i, j) == d + [DigitOf(s[j - 1])];
      assert s[i..j] == s[i..j - 1] + [s[j - 1]] && CharOf(DigitOf(s[j - 1])) == s[j - 1];
    }
  }

  lemma DigitsInOne(s: string, i: nat)
    requires i < |s|
    ensures DigitsIn(s, i, i + 1) == if IsDigit(s[i]) then [DigitOf(s[i])] else []
  {
    assert DigitsIn(s, i, i) == [];
  }

  /* ---- Numerals and their spelling ---- */

  datatype Mark = Unmarked | Plus | Minus

  datatype Suffix = NoExponent | Exponent(letter: char, mark: Mark, digits: seq<nat>)

  datatype Numeral = Numeral(mark: Mark, whole: seq<nat>, point: bool, fraction: seq<nat>, suffix: Suffix) {
    /** The digits of the coefficient. */
    const digits: seq<nat> := whole + fraction
  }

  ghost predicate WellFormedSuffix(x: Suffix) {
    x.Exponent? ==> (x.letter == 'E' || x.letter == 'e') && |x.digits| > 0 && AreDigits(x.digits)
  }

  ghost predicate WellFormed(n: Numeral) {
    && AreDigits(n.whole) && AreDigits(n.fraction) && |n.whole| + |n.fraction| > 0
    && (!n.point ==> n.fraction == [])
    && WellFormedSuffix(n.suffix)
  }

  function SpellMark(m: Mark): string {
    match m case Unmarked => "" case Plus => "+" case Minus => "-"
  }

  function SpellSuffix(x: Suffix): string
    requires WellFormedSuffix(x)
  {
    match x
    case NoExponent => ""
    case Exponent(letter, mark, digits) => [letter] + SpellMark(mark) + Text(digits)
  }

  function SpellPoint(n: Numeral): string
    requires WellFormed(n)
  {
    if n.point then "." + Text(n.fraction) else ""
  }

  function Spell(n: Numeral): string
    requires WellFormed(n)
  {
    SpellMark(n.mark) + Text(n.whole) + SpellPoint(n) + SpellSuffix(n.suffix)
  }

  lemma SpellParts(n: Numeral)
    requires WellFormed(n)
    ensures Spell(n) == SpellMark(n.mark) + Text(n.whole) + SpellPoint(n) + SpellSuffix(n.suffix)
  {
    hide SpellMark, Text, SpellPoint, SpellSuffix;
  }

  /* ---- Reading ---- */

  datatype Syntax =
    | Number(numeral: Numeral)
    | InfinityText(mark: Mark)
    | NanText(mark: Mark, signalling: bool, payload: seq<nat>)
    | Malformed

  /** The length of the run of digits from i on. */
  function Run(s: string, i: nat): (j: nat)
    requires i <= |s|
    ensures i <= j <= |s| && AllDigits(s, i, j) && (j < |s| ==> !IsDigit(s[j]))
    decreases |s| - i
  {
    if i < |s| && IsDigit(s[i]) then Run(s, i + 1) else i
  }

  lemma RunIs(s: string, i: nat, j: nat)
    requires i <= j <= |s| && AllDigits(s, i, j) && (j < |s| ==> !IsDigit(s[j]))
    ensures Run(s, i) == j
  {}

  function MarkAt(s: string, i: nat): Mark {
    if i < |s| && s[i] == '+' then Plus else if i < |s| && s[i] == '-' then Minus else Unmarked
  }

  function AfterMark(s: string, i: nat): (j: nat)
    requires i <= |s|
    ensures i <= j <= |s|
  {
    if MarkAt(s, i) == Unmarked then i else i + 1
  }

  /** The exponent part, if the rest of the string from i is nothing but one. */
  function ReadSuffix(s: string, i: nat): (r: (bool, Suffix))
    requires i <= |s|
    ensures r.0 ==> WellFormedSuffix(r.1)
  {
    if i == |s| then (true, NoExponent)
    else if s[i] != 'E' && s[i] != 'e' then (false, NoExponent)
    else
      var j := AfterMark(s, i + 1);
      if j == |s| || Run(s, j) != |s| then (false, NoExponent)
      else
        DigitsInRun(s, j, |s|);
        (true, Exponent(s[i], MarkAt(s, i + 1), DigitsIn(s, j, |s|)))
  }

  /** Equal but for case to a word of lower-case letters. */
  predicate Caseless(s: string, i: nat, lower: string, upper: string)
    requires |lower| == |upper|
  {
    |s| == i + |lower| && forall k :: 0 <= k < |lower| ==> s[i + k] == lower[k] || s[i + k] == upper[k]
  }

  predicate StartsNan(s: string, i: nat) {
    i + 3 <= |s| && (s[i] == 'N' || s[i] == 'n') && (s[i + 1] == 'A' || s[i + 1] == 'a') &&
        (s[i + 2] == 'N' || s[i + 2] == 'n')
  }

  function ReadSpecial(s: string, mark: Mark, i: nat): Syntax
    requires i <= |s|
  {
    if Caseless(s, i, "infinity", "INFINITY") || Caseless(s, i, "inf", "INF") then InfinityText(mark)
    else
      var signalling := i < |s| && (s[i] == 's' || s[i] == 'S');
      var j := if signalling then i + 1 else i;
      if StartsNan(s, j) && Run(s, j + 3) == |s| then NanText(mark, signalling, DigitsIn(s, j + 3, |s|)) else Malformed
  }

  /** What a string says. */
  function Read(s: string): Syntax {
    var mark, i := MarkAt(s, 0), AfterMark(s, 0);
    var j := Run(s, i);
    var point := j < |s| && s[j] == '.';
    var k := if point then Run(s, j + 1) else j;
    if j == i && (point ==> k == j + 1) then if point then Malformed else ReadSpecial(s, mark, i)
    else
      var (ok, suffix) := ReadSuffix(s, k);
      var fraction := if point then DigitsIn(s, j + 1, k) else [];
      if ok then Number(Numeral(mark, DigitsIn(s, i, j), point, fraction, suffix)) else Malformed
  }

  /* ---- Reading undoes spelling, and only spelling ---- */

  lemma SuffixSpells(s: string, i: nat)
    requires i <= |s| && ReadSuffix(s, i).0
    ensures SpellSuffix(ReadSuffix(s, i).1) == s[i..]
  {
    if i < |s| {
      var j := AfterMark(s, i + 1);
      DigitsInRun(s, j, |s|);
      assert s[i..] == [s[i]] + s[i + 1..j] + s[j..|s|];
      assert s[i + 1..j] == SpellMark(MarkAt(s, i + 1));
    }
  }

  /** Where the parts of a number are. */
  lemma ReadParts(s: string) returns (i: nat, j: nat, k: nat)
    requires Read(s).Number?
    ensures var n := Read(s).numeral;
      && i <= j <= k <= |s| && i == AfterMark(s, 0) && n.mark == MarkAt(s, 0)
      && AllDigits(s, i, j) && n.whole == DigitsIn(s, i, j)
      && (if n.point
          then j < k && s[j] == '.' && AllDigits(s, j + 1, k) && n.fraction == DigitsIn(s, j + 1, k)
          else k == j && n.fraction == [])
      && (j > i || (n.point && k > j + 1))
      && ReadSuffix(s, k) == (true, n.suffix)
  {
    i := AfterMark(s, 0);
    j := Run(s, i);
    k := if Read(s).numeral.point then Run(s, j + 1) else j;
  }

  lemma MarkSpells(s: string, i: nat)
    requires i <= |s|
    ensures s[i..AfterMark(s, i)] == SpellMark(MarkAt(s, i))
  {}

  /** A string read as a number is a spelling of that number. */
  lemma ReadSpells(s: string)
    requires Read(s).Number?
    ensures WellFormed(Read(s).numeral) && Spell(Read(s).numeral) == s
  {
    hide Read, Run, DigitsIn, ReadSuffix, SpellSuffix, Text, SpellMark, MarkAt, AfterMark;
    var i, j, k := ReadParts(s);
    var n := Read(s).numeral;
    DigitsInRun(s, i, j);
    if n.point { DigitsInRun(s, j + 1, k); }
    SuffixSpells(s, k);
    MarkSpells(s, 0);
    Regroup(s, i, j, k, n.point);
  }

  lemma Regroup(s: string, i: nat, j: nat, k: nat, point: bool)
    requires i <= j <= k <= |s| && (if point then j < k && s[j] == '.' else j == k)
    ensures s == s[0..i] + s[i..j] + (if point then "." + s[j + 1..k] else "") + s[k..]
  {}

  lemma TextReads(s: string, d: seq<nat>, i: nat)
    requires AreDigits(d) && i + |d| <= |s| && s[i..i + |d|] == Text(d)
    ensures AllDigits(s, i, i + |d|) && DigitsIn(s, i, i + |d|) == d
    ensures i + |d| == |s| || !IsDigit(s[i + |d|]) ==> Run(s, i) == i + |d|
  {
    var j := i + |d|;
    forall k | i <= k < j ensures s[k] == CharOf(d[k - i]) {
      assert s[k] == s[i..j][k - i];
    }
    DigitsInRun(s, i, j);
    if j == |s| || !IsDigit(s[j]) { RunIs(s, i, j); }
  }

  lemma SuffixReads(s: string, i: nat, x: Suffix)
    requires WellFormedSuffix(x) && i <= |s| && s[i..] == SpellSuffix(x)
    ensures ReadSuffix(s, i) == (true, x)
  {
    hide Run, DigitsIn, Text, SpellMark, MarkAt, AfterMark;
    if x.Exponent? {
      var m, d := SpellMark(x.mark), Text(x.digits);
      var j := i + 1 + |m|;
      ThreePieces(s, i, x.letter, m, d);
      FirstDigit(s, j, x.digits);
      MarkReads(s, i + 1, x.mark);
      assert s[j..j + |x.digits|] == s[j..];
      TextReads(s, x.digits, j);
    }
  }

  lemma ThreePieces(s: string, i: nat, c: char, m: string, d: string)
    requires i <= |s| && s[i..] == [c] + m + d
    ensures |s| == i + 1 + |m| + |d| && s[i] == c && s[i + 1..i + 1 + |m|] == m && s[i + 1 + |m|..] == d
  {
    var r := s[i..];
    assert s[i] == r[0] && s[i + 1..i + 1 + |m|] == r[1..1 + |m|] && s[i + 1 + |m|..] == r[1 + |m|..];
  }

  lemma FirstDigit(s: string, j: nat, d: seq<nat>)
    requires j <= |s| && AreDigits(d) && |d| > 0 && s[j..] == Text(d)
    ensures j < |s| && IsDigit(s[j])
  {
    assert s[j] == s[j..][0];
  }

  lemma MarkReads(s: string, i: nat, mark: Mark)
    requires i + |SpellMark(mark)| <= |s| && s[i..i + |SpellMark(mark)|] == SpellMark(mark)
    requires i + |SpellMark(mark)| < |s| ==> s[i + |SpellMark(mark)|] != '+' && s[i + |SpellMark(mark)|] != '-'
    ensures MarkAt(s, i) == mark && AfterMark(s, i) == i + |SpellMark(mark)|
  {
    if mark != Unmarked { assert s[i] == s[i..i + |SpellMark(mark)|][0]; }
  }

  /** Where the parts are fixes what is read. */
  lemma ReadIs(s: string, n: Numeral, i: nat, j: nat, k: nat)
    requires i <= j <= k <= |s| && i == AfterMark(s, 0) && n.mark == MarkAt(s, 0)
    requires Run(s, i) == j && n.whole == DigitsIn(s, i, j)
    requires if n.point
             then j < k && s[j] == '.' && Run(s, j + 1) == k && n.fraction == DigitsIn(s, j + 1, k)
             else k == j && n.fraction == [] && (j < |s| ==> s[j] != '.')
    requires j > i || (n.point && k > j + 1)
    requires ReadSuffix(s, k) == (true, n.suffix)
    ensures Read(s) == Number(n)
  {}

  /** Every spelling of a number is read as that number. */
  lemma SpellReads(n: Numeral)
    requires WellFormed(n)
    ensures Read(Spell(n)) == Number(n)
  {
    hide Run, DigitsIn, ReadSuffix, SpellSuffix, Text, SpellMark, MarkAt, AfterMark, Read;
    var s := Spell(n);
    var i := |SpellMark(n.mark)|;
    var j := i + |n.whole|;
    var k := j + |SpellPoint(n)|;
    Pieces(SpellMark(n.mark), Text(n.whole), SpellPoint(n), SpellSuffix(n.suffix));
    SuffixReads(s, k, n.suffix);
    SuffixStart(s, k, n.suffix);
    TextReads(s, n.whole, i);
    if n.point {
      PointStart(s, j, k, Text(n.fraction));
      TextReads(s, n.fraction, j + 1);
      RunEnds(s, i, j);
    }
    if j > i { FirstIsDigit(s, i, j); }
    MarkReads(s, 0, n.mark);
    ReadIs(s, n, i, j, k);
  }

  lemma PointStart(s: string, j: nat, k: nat, d: string)
    requires j <= k <= |s| && s[j..k] == "." + d
    ensures j < k && s[j] == '.' && s[j + 1..k] == d
  {
    assert s[j] == s[j..k][0] && s[j + 1..k] == s[j..k][1..];
  }

  lemma RunEnds(s: string, i: nat, j: nat)
    requires i <= j < |s| && AllDigits(s, i, j) && s[j] == '.'
    ensures Run(s, i) == j
  {
    RunIs(s, i, j);
  }

  lemma FirstIsDigit(s: string, i: nat, j: nat)
    requires i < j <= |s| && AllDigits(s, i, j)
    ensures s[i] != '+' && s[i] != '-'
  {
    assert IsDigit(s[i]);
  }

  /** What follows the coefficient is neither a digit nor a sign nor a point. */
  lemma SuffixStart(s: string, k: nat, x: Suffix)
    requires WellFormedSuffix(x) && k <= |s| && s[k..] == SpellSuffix(x)
    ensures k < |s| ==> s[k] == 'E' || s[k] == 'e'
  {
    if k < |s| { assert s[k] == s[k..][0]; }
  }

  lemma Pieces(a: string, b: string, c: string, d: string)
    ensures var s := a + b + c + d; var i, j, k := |a|, |a| + |b|, |a| + |b| + |c|;
      s[0..i] == a && s[i..j] == b && s[j..k] == c && s[k..] == d && |s| == k + |d|
  {}

  /* ---- Infinities and NaNs are words, in any mixture of cases ---- */

  function LowerOf(c: char): char {
    if 'A' <= c <= 'Z' then (c as int - 'A' as int + 'a' as int) as char else c
  }

  function Lower(s: string): (t: string)
    ensures |t| == |s| && forall i :: 0 <= i < |s| ==> t[i] == LowerOf(s[i])
  {
    seq(|s|, i requires 0 <= i < |s| => LowerOf(s[i]))
  }

  ghost predicate IsInfinityWord(word: string) {
    Lower(word) == "inf" || Lower(word) == "infinity"
  }

  ghost predicate IsNanWord(word: string, signalling: bool) {
    Lower(word) == if signalling then "snan" else "nan"
  }

  ghost predicate SpellsInfinity(s: string, mark: Mark, word: string) {
    IsInfinityWord(word) && s == SpellMark(mark) + word
  }

  ghost predicate SpellsNan(s: string, mark: Mark, word: string, signalling: bool, payload: seq<nat>) {
    IsNanWord(word, signalling) && AreDigits(payload) && s == SpellMark(mark) + word + Text(payload)
  }

  /** Is s a spelling of x? Nothing spells Malformed. */
  ghost predicate Spells(s: string, x: Syntax) {
    match x
    case Number(n) => WellFormed(n) && s == Spell(n)
    case InfinityText(mark) => exists word :: SpellsInfinity(s, mark, word)
    case NanText(mark, signalling, payload) => exists word :: SpellsNan(s, mark, word, signalling, payload)
    case Malformed => false
  }

  lemma LowerLetters(s: string, i: nat, lower: string, upper: string)
    requires i <= |s| && |lower| == |upper|
    requires forall k :: 0 <= k < |lower| ==> 'A' <= upper[k] <= 'Z' && lower[k] == LowerOf(upper[k])
    ensures Caseless(s, i, lower, upper) <==> Lower(s[i..]) == lower
  {
    var w := s[i..];
    assert forall k :: 0 <= k < |w| ==> w[k] == s[i + k];
    if Lower(w) == lower {
      forall k | 0 <= k < |lower| ensures s[i + k] == lower[k] || s[i + k] == upper[k] {
        assert Lower(w)[k] == LowerOf(s[i + k]);
      }
    }
    if Caseless(s, i, lower, upper) { assert Lower(w) == lower; }
  }

  lemma InfinityLetters(s: string, i: nat)
    requires i <= |s|
    ensures Caseless(s, i, "infinity", "INFINITY") <==> Lower(s[i..]) == "infinity"
    ensures Caseless(s, i, "inf", "INF") <==> Lower(s[i..]) == "inf"
  {
    hide Caseless, Lower;
    var lower, upper := "infinity", "INFINITY";
    assert lower[0] == LowerOf(upper[0]) && lower[1] == LowerOf(upper[1]) && lower[2] == LowerOf(upper[2]);
    assert lower[3] == LowerOf(upper[3]) && lower[4] == LowerOf(upper[4]) && lower[5] == LowerOf(upper[5]);
    assert lower[6] == LowerOf(upper[6]) && lower[7] == LowerOf(upper[7]);
    assert "inf" == lower[..3] && "INF" == upper[..3];
    LowerLetters(s, i, lower, upper);
    LowerLetters(s, i, lower[..3], upper[..3]);
  }

  predicate SignallingAt(s: string, i: nat) {
    i < |s| && (s[i] == 's' || s[i] == 'S')
  }

  /** The letters of a NaN, one by one. */
  lemma NanLetters(word: string, signalling: bool)
    ensures var d := if signalling then 1 else 0;
      IsNanWord(word, signalling) <==> |word| == d + 3 && StartsNan(word, d) && (signalling ==> SignallingAt(word, 0))
  {
    var w := Lower(word);
    if signalling && |word| == 4 {
      assert w == [LowerOf(word[0]), LowerOf(word[1]), LowerOf(word[2]), LowerOf(word[3])];
    }
    if !signalling && |word| == 3 { assert w == [LowerOf(word[0]), LowerOf(word[1]), LowerOf(word[2])]; }
  }

  lemma WordWithin(s: string, i: nat, word: string, d: nat)
    requires i + |word| <= |s| && s[i..i + |word|] == word && d + 3 <= |word|
    ensures StartsNan(s, i + d) <==> StartsNan(word, d)
    ensures SignallingAt(s, i) <==> SignallingAt(word, 0)
  {
    assert forall k :: 0 <= k < |word| ==> word[k] == s[i + k];
  }

  /** What is read after the mark when no digit comes next. */
  lemma ReadWord(s: string, mark: Mark, word: string, rest: string)
    requires s == SpellMark(mark) + word + rest && |word| > 0 && 'a' <= LowerOf(word[0]) <= 'z'
    ensures var i := |SpellMark(mark)|;
      i + |word| <= |s| && s[i..i + |word|] == word && s[i + |word|..] == rest && Read(s) == ReadSpecial(s, mark, i)
  {
    var i := |SpellMark(mark)|;
    Pieces(SpellMark(mark), word, rest, "");
    assert s == SpellMark(mark) + word + rest + "";
    assert s[i] == word[0];
    MarkReads(s, 0, mark);
    RunIs(s, i, i);
  }

  lemma InfinityIsRead(s: string, mark: Mark, word: string)
    requires SpellsInfinity(s, mark, word)
    ensures Read(s) == InfinityText(mark)
  {
    hide Read, SpellMark;
    var i := |SpellMark(mark)|;
    assert Lower(word)[0] == LowerOf(word[0]);
    assert s == SpellMark(mark) + word + "";
    ReadWord(s, mark, word, "");
    assert s[i..] == word;
    InfinityLetters(s, i);
  }

  lemma NanIsRead(s: string, mark: Mark, word: string, signalling: bool, payload: seq<nat>)
    requires SpellsNan(s, mark, word, signalling, payload)
    ensures Read(s) == NanText(mark, signalling, payload)
  {
    hide Read, SpellMark, Run, DigitsIn, Text, Lower, IsNanWord;
    var i := |SpellMark(mark)|;
    var d := if signalling then 1 else 0;
    NanLetters(word, signalling);
    ReadWord(s, mark, word, Text(payload));
    WordWithin(s, i, word, d);
    NotInfinity(s, i);
    var j := i + d + 3;
    assert s[j..j + |payload|] == s[j..];
    TextReads(s, payload, j);
  }

  lemma NotInfinity(s: string, i: nat)
    requires StartsNan(s, i) || SignallingAt(s, i)
    ensures !Caseless(s, i, "infinity", "INFINITY") && !Caseless(s, i, "inf", "INF")
    ensures StartsNan(s, i) ==> !SignallingAt(s, i)
  {
    assert "infinity"[0] == 'i' && "INFINITY"[0] == 'I' && "inf"[0] == 'i' && "INF"[0] == 'I';
    assert s[i + 0] == s[i];
  }

  lemma ReadIsSpelled(s: string)
    requires Read(s).InfinityText? || Read(s).NanText?
    ensures Spells(s, Read(s))
  {
    hide Read, SpellMark, Run, DigitsIn, Text, MarkAt, AfterMark, Lower, IsNanWord;
    var i := ReadSpecialAt(s);
    var mark := MarkAt(s, 0);
    MarkSpells(s, 0);
    assert s == s[0..i] + s[i..];
    if Read(s).InfinityText? {
      InfinityLetters(s, i);
      assert SpellsInfinity(s, mark, s[i..]);
    } else {
      NanIsSpelled(s, mark, i);
    }
  }

  lemma NanIsSpelled(s: string, mark: Mark, i: nat)
    requires i <= |s| && s == SpellMark(mark) + s[i..] && ReadSpecial(s, mark, i).NanText?
    ensures Spells(s, ReadSpecial(s, mark, i))
  {
    hide ReadSpecial, SpellMark, Run, DigitsIn, Text, Lower, IsNanWord, StartsNan;
    var x := ReadSpecial(s, mark, i);
    var j := ReadNan(s, mark, i);
    WordOf(s, i, x.signalling, j);
    DigitsInRun(s, j, |s|);
    assert s[i..] == s[i..j] + s[j..|s|];
    assert SpellsNan(s, mark, s[i..j], x.signalling, x.payload);
  }

  lemma ReadNan(s: string, mark: Mark, i: nat) returns (j: nat)
    requires i <= |s| && ReadSpecial(s, mark, i).NanText?
    ensures var x := ReadSpecial(s, mark, i);
      && x.mark == mark && j == i + (if x.signalling then 4 else 3) <= |s| && StartsNan(s, j - 3)
      && (x.signalling ==> SignallingAt(s, i)) && Run(s, j) == |s| && x.payload == DigitsIn(s, j, |s|)
  {
    hide Run, DigitsIn, Caseless;
    j := i + if ReadSpecial(s, mark, i).signalling then 4 else 3;
  }

  lemma WordOf(s: string, i: nat, signalling: bool, j: nat)
    requires j == i + (if signalling then 4 else 3) <= |s| && StartsNan(s, j - 3) && (signalling ==> SignallingAt(s, i))
    ensures IsNanWord(s[i..j], signalling)
  {
    hide Lower;
    NanLetters(s[i..j], signalling);
    WordWithin(s, i, s[i..j], j - 3 - i);
  }

  lemma ReadSpecialAt(s: string) returns (i: nat)
    requires Read(s).InfinityText? || Read(s).NanText?
    ensures i == AfterMark(s, 0) <= |s| && Read(s) == ReadSpecial(s, MarkAt(s, 0), i)
  {
    i := AfterMark(s, 0);
  }

  /** A string is read as a number, an infinity or a NaN exactly when it is one of its spellings. */
  lemma ReadIffSpelled(s: string, x: Syntax)
    requires !x.Malformed?
    ensures Read(s) == x <==> Spells(s, x)
  {
    hide Read, Spell;
    match x
    case Number(n) =>
      if Read(s) == x { ReadSpells(s); }
      if Spells(s, x) { SpellReads(n); }
    case InfinityText(mark) =>
      if Read(s) == x { ReadIsSpelled(s); }
      if Spells(s, x) {
        var word :| SpellsInfinity(s, mark, word);
        InfinityIsRead(s, mark, word);
      }
    case NanText(mark, signalling, payload) =>
      if Read(s) == x { ReadIsSpelled(s); }
      if Spells(s, x) {
        var word :| SpellsNan(s, mark, word, signalling, payload);
        NanIsRead(s, mark, word, signalling, payload);
      }
  }

  /* ---- What is read, as a number of the format ---- */

  /** A result with the payload a NaN carries. */
  datatype Datum = Value(num: Rounding.Number) | NanValue(neg: bool, signalling: bool, payload: nat)

  /** Without leading zeros. */
  function Significant(s: seq<nat>): (t: seq<nat>)
    ensures |t| <= |s| && (AreDigits(s) ==> AreDigits(t)) && (t != [] ==> t[0] != 0)
  {
    if s != [] && s[0] == 0 then Significant(s[1..]) else s
  }

  lemma {:induction false} SignificantValue(s: seq<nat>)
    ensures Val(Significant(s)) == Val(s)
  {
    if s != [] && s[0] == 0 {
      ValSkipZero(s);
      SignificantValue(s[1..]);
    }
  }

  function Signed(mark: Mark, v: int): int { if mark == Minus then -v else v }

  /** The exponent a suffix stands for. */
  function TrueExponent(x: Suffix): int {
    match x
    case NoExponent => 0
    case Exponent(_, mark, digits) => Signed(mark, Val(digits))
  }

  /** The exponent the code uses: one with too many digits is replaced by a very large one. */
  function CodeExponent(t: TextFormat, x: Suffix): int {
    match x
    case NoExponent => 0
    case Exponent(_, mark, digits) =>
      var v := if |Significant(digits)| > t.emaxd then 2 * t.f.emax else Val(digits);
      Signed(mark, v)
  }

  ghost predicate ShortExponent(t: TextFormat, x: Suffix) {
    x.Exponent? ==> |Significant(x.digits)| <= t.emaxd
  }

  datatype Reading = Reading(datum: Datum, raised: set<Condition>)

  const SyntaxError: Reading := Reading(NanValue(false, false, 0), {ConversionSyntax})

  function OutcomeReading(o: Outcome): Reading { Reading(Value(o.num), o.raised) }

  /** The exact value of the numeral, rounded once. */
  function NumeralReading(t: TextFormat, mode: Mode, n: Numeral, exp: int): Reading
    requires t.f.p > 0
  {
    OutcomeReading(RoundScaled(t.f, mode, n.mark == Minus, Val(n.digits), exp - |n.fraction|))
  }

  /** What a string is converted to. */
  function Reads(t: TextFormat, mode: Mode, s: string): Reading
    requires t.f.p > 0
  {
    match Read(s)
    case Number(n) => NumeralReading(t, mode, n, CodeExponent(t, n.suffix))
    case InfinityText(mark) => Reading(Value(Infinite(mark == Minus)), {})
    case NanText(mark, signalling, payload) =>
      if |Significant(payload)| < t.f.p then Reading(NanValue(mark == Minus, signalling, Val(payload)), {})
          else SyntaxError
    case Malformed => SyntaxError
  }

  /** Any spelling of a number with an exponent of reasonable length is converted to the exact value it
      spells, rounded once. */
  lemma SpellingIsRounded(t: TextFormat, mode: Mode, n: Numeral)
    requires t.Valid() && WellFormed(n) && ShortExponent(t, n.suffix)
    ensures Reads(t, mode, Spell(n)) == NumeralReading(t, mode, n, TrueExponent(n.suffix))
  {
    hide Read, Spell, NumeralReading;
    SpellReads(n);
  }

  /** Does s spell something the format can take: any number or infinity, or a NaN whose payload, but for
      leading zeros, has fewer than p digits? */
  ghost predicate Acceptable(t: TextFormat, s: string, x: Syntax) {
    Spells(s, x) && (x.NanText? ==> |Significant(x.payload)| < t.f.p)
  }

  /** A syntax error is reported exactly for the strings that spell nothing the format can take. */
  lemma ErrorIffNotSpelled(t: TextFormat, mode: Mode, s: string)
    requires t.Valid()
    ensures Reads(t, mode, s) == SyntaxError <==> forall x :: !Acceptable(t, s, x)
  {
    hide Read, Spells, RoundScaled, Significant;
    var y := Read(s);
    if y.Malformed? {
      forall x ensures !Acceptable(t, s, x) { if Spells(s, x) { NothingSpellsMalformed(s, x); ReadIffSpelled(s, x); } }
    } else {
      ReadIffSpelled(s, y);
      forall x | Spells(s, x) ensures x == y { NothingSpellsMalformed(s, x); ReadIffSpelled(s, x); }
      if Reads(t, mode, s) != SyntaxError { assert Acceptable(t, s, y); }
    }
  }

  lemma NothingSpellsMalformed(s: string, x: Syntax)
    requires Spells(s, x)
    ensures !x.Malformed?
  {}

  /* ---- The same, character by character ---- */

  ghost predicate IsSign(sign: string) { sign == "" || sign == "+" || sign == "-" }

  function MarkOf(sign: string): Mark { if sign == "-" then Minus else if sign == "+" then Plus else Unmarked }

  lemma MarkOfSign(sign: string)
    requires IsSign(sign)
    ensures SpellMark(MarkOf(sign)) == sign && (MarkOf(sign) == Minus <==> sign == "-")
  {}

  lemma AppendNothing(a: string)
    ensures a + "" == a
  {}

  lemma EmptyText()
    ensures Text([]) == ""
  {}

  lemma PointText(n: Numeral, point: string)
    requires WellFormed(n) && point == if n.point then "." else ""
    ensures SpellPoint(n) == point + Text(n.fraction)
  {
    EmptyText();
    hide Text;
  }

  lemma SuffixText(letter: char, esign: string, x: seq<nat>)
    requires (letter == 'E' || letter == 'e') && IsSign(esign) && AreDigits(x) && |x| > 0
    ensures SpellSuffix(Exponent(letter, MarkOf(esign), x)) == [letter] + esign + Text(x)
    ensures SpellSuffix(NoExponent) == ""
  {
    hide Text, SpellMark;
    MarkOfSign(esign);
  }

  /** A numeral without an exponent: optional sign, digits, and at most one point with digits on at least one
      side of it. */
  lemma PlainTextReads(t: TextFormat, mode: Mode, sign: string, whole: seq<nat>, point: string, fraction: seq<nat>)
    requires t.Valid() && IsSign(sign) && AreDigits(whole) && AreDigits(fraction) && |whole| + |fraction| > 0
    requires point == "." || (point == "" && fraction == [])
    ensures var o := RoundScaled(t.f, mode, sign == "-", Val(whole + fraction), -|fraction|);
      Reads(t, mode, sign + Text(whole) + (point + Text(fraction))) == Reading(Value(o.num), o.raised)
  {
    hide RoundScaled, Val, Text, Reads, Spell, SpellMark, SpellPoint, SpellSuffix;
    var n := Numeral(MarkOf(sign), whole, point == ".", fraction, NoExponent);
    MarkOfSign(sign);
    PointText(n, point);
    SuffixText('E', "", [0]);
    SpellParts(n);
    AppendNothing(sign + Text(whole) + (point + Text(fraction)));
    SpellingIsRounded(t, mode, n);
  }

  lemma ExponentNumeral(sign: string, whole: seq<nat>, point: string, fraction: seq<nat>, letter: char, esign: string,
                        x: seq<nat>, text: string) returns (n: Numeral)
    requires IsSign(sign) && AreDigits(whole) && AreDigits(fraction) && |whole| + |fraction| > 0
    requires point == "." || (point == "" && fraction == [])
    requires (letter == 'E' || letter == 'e') && IsSign(esign) && AreDigits(x) && |x| > 0
    requires text == sign + Text(whole) + (point + Text(fraction)) + ([letter] + esign + Text(x))
    ensures n == Numeral(MarkOf(sign), whole, point == ".", fraction, Exponent(letter, MarkOf(esign), x))
    ensures WellFormed(n) && Spell(n) == text
  {
    hide Text, Spell, SpellMark, SpellPoint, SpellSuffix;
    n := Numeral(MarkOf(sign), whole, point == ".", fraction, Exponent(letter, MarkOf(esign), x));
    MarkOfSign(sign);
    PointText(n, point);
    SuffixText(letter, esign, x);
    SpellParts(n);
  }

  /** The same with an exponent, in either case and with or without a sign, of a value below 10^emaxd. */
  lemma ExponentTextReads(t: TextFormat, mode: Mode, sign: string, whole: seq<nat>, point: string, fraction: seq<nat>,
                          letter: char, esign: string, x: seq<nat>, exp: int, text: string)
    requires t.Valid() && IsSign(sign) && AreDigits(whole) && AreDigits(fraction) && |whole| + |fraction| > 0
    requires point == "." || (point == "" && fraction == [])
    requires (letter == 'E' || letter == 'e') && IsSign(esign) && AreDigits(x) && |x| > 0 && Val(x) < Pow(10, t.emaxd)
    requires text == sign + Text(whole) + (point + Text(fraction)) + ([letter] + esign + Text(x))
    requires if esign == "-" then exp + Val(x) == 0 else exp == Val(x)
    ensures var o := RoundScaled(t.f, mode, sign == "-", Val(whole + fraction), exp - |fraction|);
      Reads(t, mode, text) == Reading(Value(o.num), o.raised)
  {
    hide *;
    var n := ExponentNumeral(sign, whole, point, fraction, letter, esign, x, text);
    assert (n.mark == Minus <==> sign == "-") && (n.suffix.mark == Minus <==> esign == "-") by {
      MarkOfSign(sign);
      MarkOfSign(esign);
    }
    ExponentReads(t, mode, n, exp);
    assert n.whole + n.fraction == whole + fraction;
  }

  lemma ExponentReads(t: TextFormat, mode: Mode, n: Numeral, exp: int)
    requires t.Valid() && WellFormed(n) && n.suffix.Exponent? && Val(n.suffix.digits) < Pow(10, t.emaxd)
    requires if n.suffix.mark == Minus then exp + Val(n.suffix.digits) == 0 else exp == Val(n.suffix.digits)
    ensures var o := RoundScaled(t.f, mode, n.mark == Minus, Val(n.whole + n.fraction), exp - |n.fraction|);
      Reads(t, mode, Spell(n)) == Reading(Value(o.num), o.raised)
  {
    hide RoundScaled, Val, Reads, Spell, Pow, Significant, ShortExponent;
    SmallIsShort(n.suffix.digits, t.emaxd);
    ShortIs(t, n.suffix);
    SpellingIsRounded(t, mode, n);
    assert n.digits == n.whole + n.fraction;
  }

  lemma ShortIs(t: TextFormat, x: Suffix)
    requires x.Exponent? && |Significant(x.digits)| <= t.emaxd
    ensures ShortExponent(t, x)
  {}

  lemma SmallIsShort(x: seq<nat>, n: nat)
    requires AreDigits(x) && Val(x) < Pow(10, n)
    ensures |Significant(x)| <= n
  {
    hide Val, Pow, Significant;
    var s := Significant(x);
    SignificantValue(x);
    if |s| > n {
      ValLeading(s);
      PowMono(10, n, |s| - 1);
      MulMono(1, s[0], Pow(10, |s| - 1));
    }
  }

  /** Infinities, in any mixture of cases, with an optional sign. */
  lemma InfinityTextReads(t: TextFormat, mode: Mode, sign: string, word: string)
    requires t.Valid() && IsSign(sign) && (Lower(word) == "inf" || Lower(word) == "infinity")
    ensures Reads(t, mode, sign + word) == Reading(Value(Infinite(sign == "-")), {})
  {
    hide Read, Lower, SpellMark;
    MarkOfSign(sign);
    InfinityIsRead(sign + word, MarkOf(sign), word);
  }

  /** NaNs likewise, with an optional payload; one of p significant digits or more is refused. */
  lemma NanTextReads(t: TextFormat, mode: Mode, sign: string, word: string, payload: seq<nat>)
    requires t.Valid() && IsSign(sign) && (Lower(word) == "nan" || Lower(word) == "snan") && AreDigits(payload)
    ensures Reads(t, mode, sign + word + Text(payload)) ==
      if Val(payload) < Pow(10, t.f.p - 1) then Reading(NanValue(sign == "-", |word| == 4, Val(payload)), {})
      else Reading(NanValue(false, false, 0), {ConversionSyntax})
  {
    hide Read, Lower, SpellMark, Text, Val, Pow, Significant;
    MarkOfSign(sign);
    assert |Lower(word)| == |word|;
    NanIsRead(sign + word + Text(payload), MarkOf(sign), word, |word| == 4, payload);
    PayloadFits(payload, t.f.p);
  }

  lemma PayloadFits(x: seq<nat>, p: nat)
    requires AreDigits(x) && p > 0
    ensures |Significant(x)| < p <==> Val(x) < Pow(10, p - 1)
  {
    hide Val, Pow, Significant;
    var s := Significant(x);
    SignificantValue(x);
    ValBound(s);
    if |s| < p { PowMono(10, |s|, p - 1); }
    if Val(x) < Pow(10, p - 1) { SmallIsShort(x, p - 1); }
  }

  /** Some strings that are not numbers. */
  lemma Rejected(t: TextFormat, mode: Mode)
    requires t.f.p > 0
    ensures forall s ::
      s in {"", ".", "+", "1E", "1E+", "E1", "--1", "1-", "1 ", "1..2", "1,0", "In", "Inf0", "NaN."}
      ==> Reads(t, mode, s) == SyntaxError
  {
    NoCoefficient();
    NoExponentDigits();
    NotAllRead();
    TwoPoints();
    NotWords();
    hide Read, RoundScaled, Significant, Val;
  }

  lemma NoCoefficient()
    ensures Read("") == Read(".") == Read("+") == Read("--1") == Malformed
  {}

  lemma NoExponentDigits()
    ensures Read("1E") == Read("1E+") == Read("E1") == Malformed
  {}

  lemma NotAllRead()
    ensures Read("1-") == Read("1 ") == Read("1,0") == Malformed
  {
    hide DigitsIn;
    RunIs("1-", 0, 1);
    RunIs("1 ", 0, 1);
    RunIs("1,0", 0, 1);
  }

  lemma TwoPoints()
    ensures Read("1..2") == Malformed
  {
    hide DigitsIn;
    RunIs("1..2", 0, 1);
    RunIs("1..2", 2, 2);
  }

  lemma NotWords()
    ensures Read("In") == Read("Inf0") == Read("NaN.") == Malformed
  {}
}
