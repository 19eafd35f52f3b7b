/** decFinalize: rounding, range checks and fold-down of a digit string of any length. */
module Finalizer {
  import opened Arith
  import opened Digits
  import opened Rounding
  import opened Sticky
  import opened Context

  /* ---- RoundScaled, case by case as the code meets it ---- */

  /** Nothing need be dropped: the number is stored as it stands. */
  lemma KeepDigits(f: Format, mode: Mode, neg: bool, c: nat, e: int)
    requires f.Valid() && e >= f.etiny && c < Pow(10, f.p)
    ensures RoundScaled(f, mode, neg, c, e) == Fit(f, mode, neg, c, e - f.etiny, {})
  {
    hide Pow;
    var i := e - f.etiny;
    var t := Pow(10, i);
    var a := c * t;
    assert a < 1 * Pow(10, f.p + i) by { PowAdd(10, f.p, i); MulStrict(c, Pow(10, f.p), t); }
    var k := Quantum(f.p, a, 1);
    assert k <= i by {
      if k > i { PowMono(10, f.p + i, f.p + k - 1); }
    }
    forall j: nat | j <= i ensures a % MulPow(1, j) == 0 {
      PowSplit(10, i, j);
      MulAssoc(c, Pow(10, i - j), Pow(10, j));
      DivModUnique(a, Pow(10, j), c * Pow(10, i - j), 0);
    }
    assert a % MulPow(1, k) == 0;
    var kk := Climb(a, 1, k, i);
    assert a % MulPow(1, Min(kk + 1, i)) == 0;
    DivModUnique(a, t, c, 0);
  }

  /** The common scale that turns c/10^drop into the fraction a/(b*10^k) of RoundScaled. */
  lemma DropScale(f: Format, c: nat, e: int, drop: nat) returns (t: nat)
    requires f.Valid() && e + drop >= f.etiny
    ensures t > 0
    ensures UnitsNum(f, c, e) == c * t
    ensures MulPow(UnitsDen(f, e), e + drop - f.etiny) == Pow(10, drop) * t
  {
    hide Pow;
    var k := e + drop - f.etiny;
    if e >= f.etiny {
      t := Pow(10, e - f.etiny);
      PowAdd(10, drop, e - f.etiny);
    } else {
      t := 1;
      PowAdd(10, f.etiny - e, k);
    }
  }

  /** c has at most p digits above 10^drop, and p of them unless the quantum is already the least. */
  ghost predicate DropsTo(f: Format, c: nat, e: int, drop: nat)
    requires f.p > 0
  {
    && drop > 0 && e + drop >= f.etiny
    && 0 <= c / Pow(10, drop) < Pow(10, f.p)
    && (e + drop > f.etiny ==> Pow(10, f.p - 1) <= c / Pow(10, drop))
  }

  lemma DropQuantum(f: Format, c: nat, e: int, drop: nat, t: nat)
    requires f.Valid() && DropsTo(f, c, e, drop) && t > 0
    requires UnitsNum(f, c, e) == c * t
    requires MulPow(UnitsDen(f, e), e + drop - f.etiny) == Pow(10, drop) * t
    ensures Quantum(f.p, UnitsNum(f, c, e), UnitsDen(f, e)) == e + drop - f.etiny
  {
    hide Pow, UnitsNum, UnitsDen;
    var k := e + drop - f.etiny;
    var a, b, d, q := UnitsNum(f, c, e), UnitsDen(f, e), Pow(10, drop), c / Pow(10, drop);
    ScaleDivMod(c, d, t);
    assert a / MulPow(b, k) == q;
    PowersAgainst(a, b, f.p, k);
    if k > 0 { PowersAgainst(a, b, f.p - 1, k); }
    QuantumIs(f.p, a, b, k);
  }

  lemma PowersAgainst(a: nat, b: nat, p: nat, k: nat)
    requires b > 0
    ensures a < b * Pow(10, p + k) <==> a / MulPow(b, k) < Pow(10, p)
  {
    hide Pow;
    PowAdd(10, p, k);
    var x, t, d := Pow(10, p), Pow(10, k), MulPow(b, k);
    assert x * d == b * (x * t) by { Commute(x, b, t); }
    if a < x * d { DivLt(a, d, x); } else { DivGe(a, d, x); }
  }

  /** Something is dropped, all of it zeros. */
  lemma DropZeros(f: Format, mode: Mode, neg: bool, c: nat, e: int, drop: nat)
    requires f.Valid() && DropsTo(f, c, e, drop) && c % Pow(10, drop) == 0
    ensures RoundScaled(f, mode, neg, c, e) == Fit(f, mode, neg, c / Pow(10, drop), e + drop - f.etiny, {})
  {
    var t := DropScale(f, c, e, drop);
    DropQuantum(f, c, e, drop, t);
    ScaleDivMod(c, Pow(10, drop), t);
  }

  /** Something other than zeros is dropped. */
  lemma DropSome(f: Format, mode: Mode, neg: bool, c: nat, e: int, drop: nat)
    requires f.Valid() && DropsTo(f, c, e, drop) && c % Pow(10, drop) != 0
    ensures
      var tiny := e + drop == f.etiny && c / Pow(10, drop) < Pow(10, f.p - 1);
      RoundScaled(f, mode, neg, c, e) ==
        FitRounded(f, mode, neg, Rounded(mode, neg, c, Pow(10, drop)), e + drop - f.etiny,
                   {Inexact} + if tiny then {Underflow} else {})
  {
    var t := DropScale(f, c, e, drop);
    DropQuantum(f, c, e, drop, t);
    var a, b := UnitsNum(f, c, e), UnitsDen(f, e);
    DropTiny(f, c, e, drop, a, b, t);
    SameScaled(mode, neg, c, Pow(10, drop), a, MulPow(b, e + drop - f.etiny), t);
    assert RoundScaled(f, mode, neg, c, e) == RoundExact(f, mode, neg, a, b, e - f.etiny);
    hide Pow, UnitsNum, UnitsDen, FitRounded, Rounded, RoundExact, RoundScaled, MulPow, DropsTo;
    InexactCase(f, mode, neg, a, b, e - f.etiny);
  }

  lemma SameScaled(mode: Mode, neg: bool, c: nat, d: nat, a: nat, d': nat, t: nat)
    requires d > 0 && t > 0 && a == c * t && d' == d * t && c % d != 0
    ensures d' > 0 && a % d' != 0 && Rounded(mode, neg, a, d') == Rounded(mode, neg, c, d)
  {
    hide Rounded;
    ScaleDivMod(c, d, t);
    MulCancel(c % d, 0, t);
    RoundedScale(mode, neg, c, d, t);
  }

  lemma DropTiny(f: Format, c: nat, e: int, drop: nat, a: nat, b: nat, t: nat)
    requires f.Valid() && DropsTo(f, c, e, drop) && t > 0 && b > 0
    requires a == c * t && MulPow(b, e + drop - f.etiny) == Pow(10, drop) * t
    requires Quantum(f.p, a, b) == e + drop - f.etiny
    ensures a < MulPow(b, f.p - 1) <==> e + drop == f.etiny && c / Pow(10, drop) < Pow(10, f.p - 1)
  {
    var k := e + drop - f.etiny;
    if k == 0 {
      hide Pow;
      ScaleDivMod(c, Pow(10, drop), t);
      PowersAgainst(a, b, f.p - 1, 0);
    } else {
      PowMono(10, f.p - 1, f.p + k - 1);
      MulMono(Pow(10, f.p - 1), Pow(10, f.p + k - 1), b);
    }
  }

  /* ---- The discarded digits as one digit ---- */

  /** DECSTICKYTAB (1, 1, 2, 3, 4, 6, 6, 7, 8, 9): the re-round digit when something non-zero
      follows it. */
  function StickyTab(d: nat): nat
    requires d <= 9
  {
    if d == 0 then 1 else if d == 5 then 6 else d
  }

  /** The re-round digit stands for the discarded part r of d. */
  ghost predicate Digest(reround: nat, r: nat, d: nat) {
    (reround == 0 <==> r == 0) && (reround > 5 <==> 2 * r > d) && (reround == 5 <==> 2 * r == d)
  }

  /** A first digit and whether anything follows it say all that rounding needs. */
  lemma DigestTwo(first: nat, rest: nat, n: nat)
    requires first <= 9 && rest < Pow(10, n)
    ensures Digest(if rest != 0 then StickyTab(first) else first, first * Pow(10, n) + rest, Pow(10, n + 1))
  {
    var t := Pow(10, n);
    assert Pow(10, n + 1) == 10 * t;
    hide Pow;
    if first < 5 { MulMono(first + 1, 5, t); assert (first + 1) * t == first * t + t; }
    if first > 5 { MulMono(6, first, t); }
    if first > 0 { MulMono(1, first, t); }
  }

  /** The code's choice of whether to add one, from the digest and the new last digit. */
  predicate Bump(mode: Mode, neg: bool, reround: nat, lsd: nat) {
    match mode
    case HalfEven => reround > 5 || (reround == 5 && lsd % 2 == 1)
    case Down => false
    case HalfDown => reround > 5
    case HalfUp => reround >= 5
    case Up => reround > 0
    case Ceiling => !neg && reround > 0
    case Floor => neg && reround > 0
    case ZeroFiveUp => reround > 0 && (lsd == 0 || lsd == 5)
  }

  lemma BumpRounds(mode: Mode, neg: bool, reround: nat, c: nat, d: nat)
    requires d > 0 && Digest(reround, c % d, d)
    ensures Rounded(mode, neg, c, d) ==
      c / d + if reround != 0 && Bump(mode, neg, reround, (c / d) % 10) then 1 else 0
  {
    QuotientNat(c, d);
    if c % d != 0 { BumpIsAway(mode, neg, reround, c / d, c % d, d); }
  }

  lemma BumpIsAway(mode: Mode, neg: bool, reround: nat, q: nat, r: nat, d: nat)
    requires d > 0 && Digest(reround, r, d) && r > 0
    ensures Bump(mode, neg, reround, q % 10) <==> Away(mode, neg, q, r, d)
  {
    LastDigit(q);
  }

  lemma LastDigit(q: nat)
    ensures q % 10 % 2 == q % 2
    ensures (q % 10 == 0 || q % 10 == 5) <==> q % 5 == 0
  {
    var k, r := q / 10, q % 10;
    assert q == 10 * k + r && 0 <= r < 10;
    DivModUnique(q, 2, 5 * k + r / 2, r % 2);
    DivModUnique(q, 5, 2 * k + r / 5, r % 5);
  }

  /* ---- The digit loops ---- */

  predicate FourAre(buf: array<nat>, i: nat, d: nat)
    requires i + 3 < buf.Length
    reads buf
  {
    buf[i] == d && buf[i + 1] == d && buf[i + 2] == d && buf[i + 3] == d
  }

  /** Steps over leading zeros, four at a time while that is safe, but keeps the last digit. */
  method SkipLeadingZeros(buf: array<nat>, msd: nat, lsd: nat) returns (umsd: nat)
    requires msd <= lsd < buf.Length
    ensures msd <= umsd <= lsd
    ensures Val(buf[umsd..lsd + 1]) == Val(buf[msd..lsd + 1])
    ensures umsd < lsd ==> buf[umsd] != 0
  {
    umsd := msd;
    while umsd + 3 < lsd && FourAre(buf, umsd, 0)
      invariant msd <= umsd <= lsd
      invariant Val(buf[umsd..lsd + 1]) == Val(buf[msd..lsd + 1])
      decreases lsd - umsd
    {
      SkipZerosAt(buf[..], umsd, umsd + 4, lsd + 1);
      umsd := umsd + 4;
    }
    while buf[umsd] == 0 && umsd < lsd
      invariant msd <= umsd <= lsd
      invariant Val(buf[umsd..lsd + 1]) == Val(buf[msd..lsd + 1])
      decreases lsd - umsd
    {
      SkipZerosAt(buf[..], umsd, umsd + 1, lsd + 1);
      umsd := umsd + 1;
    }
  }

  lemma {:induction false} SkipZerosAt(s: seq<nat>, i: nat, j: nat, end: nat)
    requires i <= j <= end <= |s| && forall k :: i <= k < j ==> s[k] == 0
    ensures Val(s[i..end]) == Val(s[j..end])
    decreases j - i
  {
    if i < j {
      ValSkipZero(s[i..end]);
      assert s[i..end][1..] == s[i + 1..end];
      SkipZerosAt(s, i + 1, j, end);
    }
  }

  /** The sticky test: is any digit from start to lsd non-zero? */
  method ApplySticky(buf: array<nat>, start: nat, lsd: nat, digit: nat) returns (reround: nat)
    requires start <= lsd + 1 <= buf.Length && digit <= 9
    ensures reround == if Val(buf[start..lsd + 1]) != 0 then StickyTab(digit) else digit
  {
    var ub := start;
    reround := digit;
    while ub <= lsd
      invariant start <= ub <= lsd + 1
      invariant forall i :: start <= i < ub ==> buf[i] == 0
    {
      if buf[ub] != 0 {
        ValZeros(buf[start..lsd + 1]);
        assert buf[start..lsd + 1][ub - start] != 0;
        reround := StickyTab(digit);
        return;
      }
      ub := ub + 1;
    }
    ValZeros(buf[start..lsd + 1]);
  }

  /** A coefficient without superfluous leading zeros. */
  ghost predicate Trimmed(s: seq<nat>) {
    |s| > 0 && AreDigits(s) && (|s| == 1 || s[0] != 0)
  }

  /** Cuts drop digits from the right; the cut may fall inside the coefficient, just to its left,
      or further left still. What is cut is returned as one re-round digit. */
  method Discard(buf: array<nat>, umsd: nat, lsd: nat, drop: nat) returns (reround: nat, ulsd: nat)
    requires umsd <= lsd < buf.Length && Trimmed(buf[umsd..lsd + 1]) && drop > 0
    modifies buf
    ensures umsd <= ulsd <= lsd && Trimmed(buf[umsd..ulsd + 1])
    ensures Val(buf[umsd..ulsd + 1]) == old(Val(buf[umsd..lsd + 1])) / Pow(10, drop)
    ensures Digest(reround, old(Val(buf[umsd..lsd + 1])) % Pow(10, drop), Pow(10, drop))
    ensures ulsd - umsd + 1 == if drop < lsd - umsd + 1 then lsd - umsd + 1 - drop else 1
    ensures ulsd == lsd ==> Val(buf[umsd..ulsd + 1]) == 0
  {
    hide Pow, Val, Digest;
    var length := lsd - umsd + 1;
    ghost var s := buf[umsd..lsd + 1];
    if drop < length {
      var roundat := umsd + length - drop;
      assert buf[roundat] == s[length - drop];
      reround := ApplySticky(buf, roundat + 1, lsd, buf[roundat]);
      ulsd := roundat - 1;
      assert buf[umsd..ulsd + 1] == s[..length - drop] && buf[roundat + 1..lsd + 1] == s[length - drop + 1..];
      DiscardInside(s, drop);
      assert AreDigits(s[..length - drop]);
    } else {
      reround := DiscardLeft(buf, umsd, lsd, drop);
      ulsd := umsd;
    }
  }

  /** The cut falls at or left of the first digit: everything goes, leaving a zero. */
  method DiscardLeft(buf: array<nat>, umsd: nat, lsd: nat, drop: nat) returns (reround: nat)
    requires umsd <= lsd < buf.Length && AreDigits(buf[umsd..lsd + 1]) && drop > lsd - umsd
    modifies buf
    ensures old(Val(buf[umsd..lsd + 1])) / Pow(10, drop) == 0
    ensures Digest(reround, old(Val(buf[umsd..lsd + 1])) % Pow(10, drop), Pow(10, drop))
    ensures Trimmed(buf[umsd..umsd + 1]) && Val(buf[umsd..umsd + 1]) == 0
  {
    hide Pow, Val, Digest;
    ghost var s := buf[umsd..lsd + 1];
    if drop == lsd - umsd + 1 {
      assert buf[umsd] == s[0] && buf[umsd + 1..lsd + 1] == s[1..];
      reround := ApplySticky(buf, umsd + 1, lsd, buf[umsd]);
    } else {
      reround := ApplySticky(buf, umsd, lsd, 0);
    }
    DiscardAll(s, drop);
    buf[umsd] := 0;
    assert buf[umsd..umsd + 1] == [0];
    ValOne(0);
  }

  lemma DiscardInside(s: seq<nat>, drop: nat)
    requires AreDigits(s) && 0 < drop <= |s|
    ensures var keep := |s| - drop; var rest := Val(s[keep + 1..]);
      && Val(s) / Pow(10, drop) == Val(s[..keep])
      && Digest(if rest != 0 then StickyTab(s[keep]) else s[keep], Val(s) % Pow(10, drop), Pow(10, drop))
  {
    hide *;
    var keep := |s| - drop;
    var t := s[keep..];
    assert |t| == drop && t[1..] == s[keep + 1..] && t[0] == s[keep];
    CutValue(s, keep);
    DigestLeading(t);
  }

  lemma DigestLeading(t: seq<nat>)
    requires AreDigits(t) && |t| > 0
    ensures Digest(if Val(t[1..]) != 0 then StickyTab(t[0]) else t[0], Val(t), Pow(10, |t|))
  {
    hide *;
    ValLeading(t);
    DigestTwo(t[0], Val(t[1..]), |t| - 1);
  }

  lemma DiscardAll(s: seq<nat>, drop: nat)
    requires AreDigits(s) && 0 < |s| <= drop
    ensures Val(s) / Pow(10, drop) == 0 && Val(s) % Pow(10, drop) == Val(s)
    ensures drop == |s| ==>
      var rest := Val(s[1..]);
      Digest(if rest != 0 then StickyTab(s[0]) else s[0], Val(s) % Pow(10, drop), Pow(10, drop))
    ensures drop > |s| ==> Digest(if Val(s) != 0 then StickyTab(0) else 0, Val(s) % Pow(10, drop), Pow(10, drop))
  {
    hide Val, Pow, Digest;
    ValBound(s);
    PowMono(10, |s|, drop);
    DivModUnique(Val(s), Pow(10, drop), 0, Val(s));
    if drop == |s| {
      DiscardInside(s, drop);
    } else {
      PowMono(10, |s|, drop - 1);
      DigestTwo(0, Val(s), drop - 1);
    }
  }

  /** Turns the nines at the right of umsd..ulsd to zeros, four at a time and then one by one;
      ub is left at the first digit that is not nine, or just left of umsd. */
  method ClearNines(buf: array<nat>, umsd: nat, ulsd: nat) returns (ub: int)
    requires umsd <= ulsd < buf.Length
    modifies buf
    ensures umsd - 1 <= ub <= ulsd
    ensures ub >= umsd ==> buf[ub] != 9
    ensures forall i :: ub < i <= ulsd ==> buf[i] == 0 && old(buf[i]) == 9
    ensures forall i :: 0 <= i < buf.Length && !(ub < i <= ulsd) ==> buf[i] == old(buf[i])
  {
    ub := ulsd;
    while ub - 3 >= umsd && FourAre(buf, ub - 3, 9)
      invariant umsd - 1 <= ub <= ulsd
      invariant forall i :: ub < i <= ulsd ==> buf[i] == 0 && old(buf[i]) == 9
      invariant forall i :: 0 <= i < buf.Length && !(ub < i <= ulsd) ==> buf[i] == old(buf[i])
      decreases ub
    {
      buf[ub - 3], buf[ub - 2], buf[ub - 1], buf[ub] := 0, 0, 0, 0;
      ub := ub - 4;
    }
    while ub >= umsd && buf[ub] == 9
      invariant umsd - 1 <= ub <= ulsd
      invariant forall i :: ub < i <= ulsd ==> buf[i] == 0 && old(buf[i]) == 9
      invariant forall i :: 0 <= i < buf.Length && !(ub < i <= ulsd) ==> buf[i] == old(buf[i])
      decreases ub
    {
      buf[ub] := 0;
      ub := ub - 1;
    }
  }

  /** Adds one to the digits umsd..ulsd in place; all nines become all zeros with a carry out. */
  method Increment(buf: array<nat>, umsd: nat, ulsd: nat) returns (carried: bool)
    requires umsd <= ulsd < buf.Length && AreDigits(buf[umsd..ulsd + 1])
    modifies buf
    ensures AreDigits(buf[umsd..ulsd + 1])
    ensures carried <==> old(Val(buf[umsd..ulsd + 1])) == Pow(10, ulsd - umsd + 1) - 1
    ensures carried ==> forall i :: umsd <= i <= ulsd ==> buf[i] == 0
    ensures !carried ==> Val(buf[umsd..ulsd + 1]) == old(Val(buf[umsd..ulsd + 1])) + 1
    ensures !carried && old(buf[umsd]) != 0 ==> buf[umsd] != 0
    ensures forall i :: 0 <= i < buf.Length && !(umsd <= i <= ulsd) ==> buf[i] == old(buf[i])
  {
    hide Val, Pow;
    ghost var s := buf[umsd..ulsd + 1];
    assert forall i :: umsd <= i <= ulsd ==> buf[i] == s[i - umsd];
    var ub := ClearNines(buf, umsd, ulsd);
    carried := ub < umsd;
    if carried {
      ValNines(s);
    } else {
      assert buf[ub] == s[ub - umsd];
      buf[ub] := buf[ub] + 1;
      IncrementAt(s, buf[umsd..ulsd + 1], ub - umsd);
    }
  }

  lemma IncrementAt(s: seq<nat>, t: seq<nat>, i: nat)
    requires AreDigits(s) && |s| == |t| && i < |s|
    requires s[i] < 9 && t[i] == s[i] + 1
    requires forall j :: 0 <= j < i ==> t[j] == s[j]
    requires forall j :: i < j < |s| ==> s[j] == 9 && t[j] == 0
    ensures AreDigits(t) && Val(t) == Val(s) + 1 && Val(s) < Pow(10, |s|) - 1
  {
    hide Val, Pow;
    PrefixBumped(s, t, i);
    TailNines(s, i);
    TailZeros(t, i);
    ValBound(t);
    OneMore(Val(s[..i + 1]), Pow(10, |s| - 1 - i));
  }

  lemma PrefixBumped(s: seq<nat>, t: seq<nat>, i: nat)
    requires |s| == |t| && i < |s| && t[i] == s[i] + 1 && forall j :: 0 <= j < i ==> t[j] == s[j]
    ensures Val(t[..i + 1]) == Val(s[..i + 1]) + 1
  {
    assert t[..i + 1] == s[..i] + [s[i] + 1] && s[..i + 1] == s[..i] + [s[i]];
    ValAppend(s[..i], s[i]);
    ValAppend(s[..i], s[i] + 1);
  }

  lemma TailNines(s: seq<nat>, i: nat)
    requires i < |s| && forall j :: i < j < |s| ==> s[j] == 9
    ensures Val(s) == Val(s[..i + 1]) * Pow(10, |s| - 1 - i) + Pow(10, |s| - 1 - i) - 1
  {
    hide Val, Pow;
    ValSplit(s, i + 1);
    ValNines(s[i + 1..]);
  }

  lemma TailZeros(s: seq<nat>, i: nat)
    requires i < |s| && forall j :: i < j < |s| ==> s[j] == 0
    ensures Val(s) == Val(s[..i + 1]) * Pow(10, |s| - 1 - i)
  {
    hide Val, Pow;
    ValSplit(s, i + 1);
    ValZeros(s[i + 1..]);
  }

  /* ---- Rounding a coefficient in place ---- */

  /** The length of a trimmed coefficient tells its size. */
  lemma TrimmedSize(s: seq<nat>)
    requires Trimmed(s)
    ensures Val(s) < Pow(10, |s|)
    ensures Val(s) != 0 ==> Pow(10, |s| - 1) <= Val(s)
    ensures Val(s) == 0 <==> |s| == 1 && s[0] == 0
  {
    ValBound(s);
    ValLeading(s);
    if |s| == 1 { assert s == [s[0]]; ValOne(s[0]); assert Pow(10, 0) == 1; }
  }

  /** How many digits the code drops, and that it is the number RoundScaled needs. */
  lemma DropCount(f: Format, s: seq<nat>, e: int, drop: int)
    requires f.Valid() && Trimmed(s) && drop == Max(|s| - f.p, f.etiny - e) && drop > 0
    ensures DropsTo(f, Val(s), e, drop)
    ensures Val(s) / Pow(10, drop) < Pow(10, f.p - 1) <==> (if drop < |s| then |s| - drop else 1) < f.p
  {
    hide Val, Pow, Trimmed;
    TrimmedSize(s);
    var c, d, n := Val(s), Pow(10, drop), |s|;
    if drop < n {
      PowSplit(10, n, drop);
      DivLt(c, d, Pow(10, n - drop));
      PowMono(10, n - drop, f.p);
      PowSplit(10, n - 1, drop);
      DivGe(c, d, Pow(10, n - 1 - drop));
      if n - drop < f.p {
        PowMono(10, n - drop, f.p - 1);
      } else {
        PowMono(10, f.p - 1, n - 1 - drop);
      }
    } else {
      PowMono(10, n, drop);
      DivModUnique(c, d, 0, c);
    }
  }

  lemma LastDigitOf(s: seq<nat>)
    requires |s| > 0 && AreDigits(s)
    ensures Val(s) % 10 == s[|s| - 1]
  {}

  /** A one followed by zeros. */
  lemma OneZeros(s: seq<nat>)
    requires |s| > 0 && s[0] == 1 && forall i :: 0 < i < |s| ==> s[i] == 0
    ensures Val(s) == Pow(10, |s| - 1) && Trimmed(s)
  {
    ValLeading(s);
    ValZeros(s[1..]);
  }

  /** A rounded coefficient c at exponent e, once a carry out of p digits has been absorbed. */
  ghost predicate Carried(f: Format, c: nat, e: int, c': nat, e': int)
    requires f.p > 0
  {
    if c == Pow(10, f.p) then c' == Pow(10, f.p - 1) && e' == e + 1 else c' == c && e' == e
  }

  lemma CarriedFit(f: Format, mode: Mode, neg: bool, c: nat, e: int, c': nat, e': int, raised: set<Condition>)
    requires f.p > 0 && e >= f.etiny && Carried(f, c, e, c', e')
    ensures e' >= f.etiny
    ensures FitRounded(f, mode, neg, c, e - f.etiny, raised) == Fit(f, mode, neg, c', e' - f.etiny, raised)
  {
    hide Pow, Fit;
  }

  /** After an all-nines carry the coefficient is a one and zeros: the exponent goes up when p
      digits are in use, and otherwise the (subnormal) coefficient gains a digit. */
  method CarryOut(f: Format, buf: array<nat>, umsd: nat, lsd: nat, e: int) returns (ulsd: nat, exponent: int)
    requires f.Valid() && umsd <= lsd < buf.Length && lsd - umsd < f.p
    requires forall i :: umsd <= i <= lsd ==> buf[i] == 0
    requires lsd - umsd + 1 < f.p ==> lsd + 1 < buf.Length
    modifies buf
    ensures umsd <= ulsd < buf.Length && Trimmed(buf[umsd..ulsd + 1]) && ulsd - umsd < f.p
    ensures Carried(f, Pow(10, lsd - umsd + 1), e, Val(buf[umsd..ulsd + 1]), exponent)
  {
    hide Val, Pow, Trimmed;
    buf[umsd] := 1;
    ulsd, exponent := lsd, e;
    if lsd - umsd + 1 == f.p {
      exponent := e + 1;
    } else {
      PowMono(10, lsd - umsd + 1, f.p);
      ulsd := lsd + 1;
      buf[ulsd] := 0;
    }
    OneZeros(buf[umsd..ulsd + 1]);
  }

  /** Adds one to the coefficient, absorbing any carry. */
  method BumpCoefficient(f: Format, buf: array<nat>, umsd: nat, lsd: nat, e: int) returns (ulsd: nat, exponent: int)
    requires f.Valid() && umsd <= lsd < buf.Length && lsd - umsd < f.p
    requires Trimmed(buf[umsd..lsd + 1]) && (Val(buf[umsd..lsd + 1]) != 0 ==> lsd + 1 < buf.Length)
    modifies buf
    ensures umsd <= ulsd < buf.Length && Trimmed(buf[umsd..ulsd + 1]) && ulsd - umsd < f.p
    ensures Carried(f, old(Val(buf[umsd..lsd + 1])) + 1, e, Val(buf[umsd..ulsd + 1]), exponent)
  {
    hide Val, Pow;
    PowExceeds(lsd - umsd + 1);
    var carried := Increment(buf, umsd, lsd);
    if carried {
      ulsd, exponent := CarryOut(f, buf, umsd, lsd, e);
    } else {
      ulsd, exponent := lsd, e;
      ValBound(buf[umsd..ulsd + 1]);
      PowMono(10, ulsd - umsd + 1, f.p);
    }
  }

  /** The inexact half of the rounding: flags, the choice of a bump, and the increment with its
      all-nines case. The coefficient is c/d truncated, and reround stands for c%d. */
  method RoundInexact(f: Format, buf: array<nat>, umsd: nat, lsd: nat, neg: bool, e: int, ctx: DecContext,
                      reround: nat, ghost c: nat, ghost d: nat)
    returns (ulsd: nat, exponent: int, ghost raised: set<Condition>)
    requires f.Valid() && umsd <= lsd < buf.Length && lsd - umsd < f.p
    requires Trimmed(buf[umsd..lsd + 1]) && (Val(buf[umsd..lsd + 1]) != 0 ==> lsd + 1 < buf.Length)
    requires e >= f.etiny && (lsd - umsd + 1 < f.p ==> e == f.etiny)
    requires d > 0 && Val(buf[umsd..lsd + 1]) == c / d && Digest(reround, c % d, d) && reround != 0
    modifies buf, ctx`status
    ensures umsd <= ulsd < buf.Length && Trimmed(buf[umsd..ulsd + 1]) && ulsd - umsd < f.p
    ensures raised == {Inexact} + if e == f.etiny && lsd - umsd + 1 < f.p then {Underflow} else {}
    ensures ctx.status == old(ctx.status) + raised
    ensures Carried(f, Rounded(ctx.round, neg, c, d), e, Val(buf[umsd..ulsd + 1]), exponent)
  {
    hide Val, Pow, Rounded, Digest;
    LastDigitOf(buf[umsd..lsd + 1]);
    BumpRounds(ctx.round, neg, reround, c, d);
    ctx.Raise({Inexact});
    raised := {Inexact};
    if e < f.emin && e + (lsd - umsd + 1) - 1 < f.emin {
      ctx.Raise({Underflow});
      raised := raised + {Underflow};
    }
    if Bump(ctx.round, neg, reround, buf[lsd]) {
      ulsd, exponent := BumpCoefficient(f, buf, umsd, lsd, e);
    } else {
      ulsd, exponent := lsd, e;
      ValBound(buf[umsd..ulsd + 1]);
      PowMono(10, ulsd - umsd + 1, f.p);
    }
  }

  /** Drops digits from a coefficient that is too long or too fine, and rounds what is left. */
  method RoundDropping(f: Format, buf: array<nat>, umsd: nat, lsd: nat, neg: bool, e: int, ctx: DecContext, drop: nat)
    returns (ulsd: nat, exponent: int, ghost raised: set<Condition>)
    requires f.Valid() && umsd <= lsd < buf.Length && Trimmed(buf[umsd..lsd + 1])
    requires drop == Max(lsd - umsd + 1 - f.p, f.etiny - e) && drop > 0
    modifies buf, ctx`status
    ensures umsd <= ulsd < buf.Length && Trimmed(buf[umsd..ulsd + 1]) && ulsd - umsd < f.p && exponent >= f.etiny
    ensures ctx.status == old(ctx.status) + raised
    ensures RoundScaled(f, ctx.round, neg, old(Val(buf[umsd..lsd + 1])), e)
            == Fit(f, ctx.round, neg, Val(buf[umsd..ulsd + 1]), exponent - f.etiny, raised)
  {
    hide Val, Pow, Fit, FitRounded, RoundScaled, Rounded, Trimmed, Carried;
    ghost var c := Val(buf[umsd..lsd + 1]);
    DropCount(f, buf[umsd..lsd + 1], e, drop);
    var reround, cut := Discard(buf, umsd, lsd, drop);
    if reround == 0 {
      DropZeros(f, ctx.round, neg, c, e, drop);
      ulsd, exponent, raised := cut, e + drop, {};
    } else {
      DropSome(f, ctx.round, neg, c, e, drop);
      ulsd, exponent, raised := RoundInexact(f, buf, umsd, cut, neg, e + drop, ctx, reround, c, Pow(10, drop));
      CarriedFit(f, ctx.round, neg, Rounded(ctx.round, neg, c, Pow(10, drop)), e + drop,
                 Val(buf[umsd..ulsd + 1]), exponent, raised);
    }
  }

  /** Rounds to at most p digits no finer than Etiny, setting Inexact and Underflow. */
  method RoundDigits(f: Format, buf: array<nat>, msd: nat, lsd: nat, neg: bool, e: int, ctx: DecContext)
    returns (umsd: nat, ulsd: nat, exponent: int, ghost raised: set<Condition>)
    requires f.Valid() && msd <= lsd < buf.Length && AreDigits(buf[msd..lsd + 1])
    modifies buf, ctx`status
    ensures umsd <= ulsd < buf.Length && Trimmed(buf[umsd..ulsd + 1]) && ulsd - umsd < f.p && exponent >= f.etiny
    ensures ctx.status == old(ctx.status) + raised
    ensures RoundScaled(f, ctx.round, neg, old(Val(buf[msd..lsd + 1])), e)
            == Fit(f, ctx.round, neg, Val(buf[umsd..ulsd + 1]), exponent - f.etiny, raised)
  {
    hide Val, Pow, Fit, RoundScaled;
    umsd := SkipLeadingZeros(buf, msd, lsd);
    assert forall i :: umsd <= i <= lsd ==> buf[i] == buf[msd..lsd + 1][i - msd];
    var length := lsd - umsd + 1;
    var drop := Max(length - f.p, f.etiny - e);
    if drop > 0 {
      ulsd, exponent, raised := RoundDropping(f, buf, umsd, lsd, neg, e, ctx, drop);
    } else {
      ulsd, exponent, raised := lsd, e, {};
      ValBound(buf[umsd..lsd + 1]);
      PowMono(10, length, f.p);
      KeepDigits(f, ctx.round, neg, Val(buf[umsd..lsd + 1]), e);
    }
  }

  /* ---- The top of the range ---- */

  lemma FitRaises(f: Format, mode: Mode, neg: bool, c: nat, k: nat, raised: set<Condition>)
    ensures var o := Fit(f, mode, neg, c, k, {});
      Fit(f, mode, neg, c, k, raised) == Outcome(o.num, raised + o.raised)
  {
    hide Pow;
  }

  /** The code's test on the adjusted exponent is the one Fit makes on the value. */
  lemma OverflowTest(f: Format, s: seq<nat>, e: int)
    requires f.Valid() && Trimmed(s) && |s| <= f.p && e > f.etop && Val(s) != 0
    ensures e + |s| - 1 > f.emax <==> Pow(10, f.p) <= Val(s) * Pow(10, e - f.etop)
  {
    hide Val, Pow;
    TrimmedSize(s);
    var shift := e - f.etop;
    var c, t := Val(s), Pow(10, shift);
    PowAdd(10, |s| - 1, shift);
    PowAdd(10, |s|, shift);
    MulMono(Pow(10, |s| - 1), c, t);
    MulStrict(c, Pow(10, |s|), t);
    if e + |s| - 1 > f.emax {
      PowMono(10, f.p, |s| - 1 + shift);
    } else {
      PowMono(10, |s| + shift, f.p);
    }
  }

  /** Fold-down: the digits are copied to a buffer of their own and padded with zeros. */
  method FoldDown(buf: array<nat>, umsd: nat, ulsd: nat, shift: nat) returns (buffer: array<nat>)
    requires umsd <= ulsd < buf.Length
    ensures fresh(buffer) && buffer.Length > 0
    ensures Val(buffer[..]) == Val(buf[umsd..ulsd + 1]) * Pow(10, shift)
  {
    hide Val, Pow;
    var n := ulsd - umsd + 1;
    buffer := new nat[n + shift];
    var t := 0;
    while t < n
      invariant t <= n
      invariant forall i :: 0 <= i < t ==> buffer[i] == buf[umsd + i]
    {
      buffer[t] := buf[umsd + t];
      t := t + 1;
    }
    while t < n + shift
      invariant n <= t <= n + shift
      invariant forall i :: 0 <= i < n ==> buffer[i] == buf[umsd + i]
      invariant forall i :: n <= i < t ==> buffer[i] == 0
    {
      buffer[t] := 0;
      t := t + 1;
    }
    ValSplit(buffer[..], n);
    ValZeros(buffer[..][n..]);
    assert buffer[..][..n] == buf[umsd..ulsd + 1];
  }

  /** Clamps, overflows or folds down a number that is too high for the format's exponents. */
  method FitDigits(f: Format, buf: array<nat>, umsd: nat, ulsd: nat, neg: bool, e: int, ctx: DecContext)
    returns (df: Number)
    requires f.Valid() && umsd <= ulsd < buf.Length && Trimmed(buf[umsd..ulsd + 1])
    requires ulsd - umsd < f.p && e >= f.etiny
    modifies buf, ctx`status
    ensures var o := Fit(f, ctx.round, neg, old(Val(buf[umsd..ulsd + 1])), e - f.etiny, {});
      df == o.num && ctx.status == old(ctx.status) + o.raised
  {
    hide Val, Pow, Trimmed;
    ghost var s := buf[umsd..ulsd + 1];
    TrimmedSize(s);
    if e > f.etop {
      if buf[ulsd] == 0 && ulsd == umsd {
        df := Finite(neg, 0, f.etop);
      } else {
        assert Val(s) != 0;
        OverflowTest(f, s, e);
        if e + (ulsd - umsd + 1) - 1 > f.emax {
          ctx.Raise({Overflow, Inexact});
          df := OverflowResult(f, ctx.round, neg);
        } else {
          var buffer := FoldDown(buf, umsd, ulsd, e - f.etop);
          df := Finite(neg, Val(buffer[..]), f.etop);
        }
      }
    } else {
      df := Finite(neg, Val(buf[umsd..ulsd + 1]), e);
    }
  }

  /** Infinity, or the constant array of p nines. */
  method OverflowResult(f: Format, round: Mode, neg: bool) returns (df: Number)
    ensures df == Overflowed(f, round, neg)
  {
    var needmax := false;
    match round {
      case Down => needmax := true;
      case ZeroFiveUp => needmax := true;
      case Ceiling => if neg { needmax := true; }
      case Floor => if !neg { needmax := true; }
      case _ =>
    }
    if needmax {
      var allnines := seq(f.p, _ => 9);
      ValNines(allnines);
      df := Finite(neg, Val(allnines), f.etop);
    } else {
      df := Infinite(neg);
    }
  }

  /** decFinalize. The result and the conditions raised are those of the exact number
      (-1)^neg * coefficient * 10^exponent, rounded once. */
  method Finalize(f: Format, num: BcdNum, ctx: DecContext) returns (df: Number)
    requires f.Valid() && num.Valid()
    modifies num`exponent, num.buf, ctx`status
    ensures var o := RoundScaled(f, ctx.round, num.neg, old(num.Coefficient()), old(num.exponent));
      df == o.num && ctx.status == old(ctx.status) + o.raised
  {
    hide Val, Pow, Fit, RoundScaled;
    var umsd, ulsd, exponent, raised := RoundDigits(f, num.buf, num.msd, num.lsd, num.neg, num.exponent, ctx);
    num.exponent := exponent;
    FitRaises(f, ctx.round, num.neg, Val(num.buf[umsd..ulsd + 1]), exponent - f.etiny, raised);
    df := FitDigits(f, num.buf, umsd, ulsd, num.neg, exponent, ctx);
  }
}
