/** decCanonical's loop: replaces redundant declets in place, including those that straddle words. */
module Canonicalize {
  import opened Arith
  import opened Declet

  /* ---- Words, the most significant first ---- */

  ghost predicate AreWords(s: seq<nat>) {
    forall i :: 0 <= i < |s| ==> s[i] < TWO32
  }

  function Whole(s: seq<nat>): nat {
    if |s| == 0 then 0 else Whole(s[..|s| - 1]) * TWO32 + s[|s| - 1]
  }

  lemma WholeAppend(s: seq<nat>, x: nat)
    ensures Whole(s + [x]) == Whole(s) * TWO32 + x
  {
    assert (s + [x])[..|s|] == s;
  }

  lemma {:induction false} WholeConcat(s: seq<nat>, t: seq<nat>)
    ensures Whole(s + t) == Whole(s) * Pow(TWO32, |t|) + Whole(t)
  {
    if |t| == 0 {
      assert s + t == s;
    } else {
      var u, d := t[..|t| - 1], t[|t| - 1];
      assert s + t == (s + u) + [d];
      WholeAppend(s + u, d);
      WholeConcat(s, u);
      Regroup(Whole(s), Pow(TWO32, |u|), TWO32);
    }
  }

  lemma Regroup(x: nat, p: nat, b: nat)
    ensures x * (b * p) == x * p * b
  {}

  lemma {:induction false} WholeBound(s: seq<nat>)
    requires AreWords(s)
    ensures Whole(s) < Pow(TWO32, |s|)
  {
    if |s| > 0 {
      WholeBound(s[..|s| - 1]);
      MulMono(Whole(s[..|s| - 1]) + 1, Pow(TWO32, |s| - 1), TWO32);
    }
  }

  /** A prefix of the words is a quotient. */
  lemma WholePrefix(s: seq<nat>, i: nat)
    requires i <= |s| && AreWords(s)
    ensures Whole(s) / Pow(TWO32, |s| - i) == Whole(s[..i]) && Whole(s) % Pow(TWO32, |s| - i) == Whole(s[i..])
  {
    hide Whole, Pow;
    assert s == s[..i] + s[i..];
    WholeConcat(s[..i], s[i..]);
    WholeBound(s[i..]);
    DivModUnique(Whole(s), Pow(TWO32, |s| - i), Whole(s[..i]), Whole(s[i..]));
  }

  /** Words are fixed by their number. */
  lemma {:induction false} WholeUnique(s: seq<nat>, t: seq<nat>)
    requires |s| == |t| && AreWords(s) && AreWords(t) && Whole(s) == Whole(t)
    ensures s == t
  {
    if |s| > 0 {
      var n := |s| - 1;
      DivModUnique(Whole(s), TWO32, Whole(s[..n]), s[n]);
      DivModUnique(Whole(t), TWO32, Whole(t[..n]), t[n]);
      WholeUnique(s[..n], t[..n]);
      assert s == s[..n] + [s[n]] && t == t[..n] + [t[n]];
    }
  }

  lemma {:induction false} WholeUpdate(s: seq<nat>, i: nat, x: nat)
    requires i < |s|
    ensures Whole(s[i := x]) == Whole(s) + (x - s[i]) * Pow(TWO32, |s| - 1 - i)
  {
    hide Whole, Pow;
    var t := s[i := x];
    assert s == s[..i + 1] + s[i + 1..] && t == t[..i + 1] + s[i + 1..];
    assert s[..i + 1] == s[..i] + [s[i]] && t[..i + 1] == s[..i] + [x];
    WholeAppend(s[..i], s[i]);
    WholeAppend(s[..i], x);
    WholeConcat(s[..i + 1], s[i + 1..]);
    WholeConcat(t[..i + 1], s[i + 1..]);
    UpdateArith(Whole(s[..i]) * TWO32, s[i], x, Pow(TWO32, |s| - 1 - i));
  }

  lemma UpdateArith(a: nat, x: nat, y: nat, p: nat)
    ensures (a + y) * p == (a + x) * p + (y - x) * p
  {}

  /* ---- Declets ---- */

  /** The kth declet from the right. */
  function DecletAt(v: nat, k: nat): (d: nat)
    ensures d < 1024
  {
    v / Pow(1024, k) % 1024
  }

  /** A replacement of declets by declets. */
  ghost predicate OnDeclets(g: nat -> nat) {
    forall d :: 0 <= d < 1024 ==> g(d) < 1024
  }

  /** The low k declets, each replaced. */
  function ReplacedLow(v: nat, k: nat, g: nat -> nat): nat {
    if k == 0 then 0 else
      MulMono(0, g(DecletAt(v, k - 1)), Pow(1024, k - 1));
      ReplacedLow(v, k - 1, g) + g(DecletAt(v, k - 1)) * Pow(1024, k - 1)
  }

  /** Everything above the n declets, and the declets replaced. */
  function Replaced(v: nat, n: nat, g: nat -> nat): nat {
    MulMono(0, v / Pow(1024, n), Pow(1024, n));
    v / Pow(1024, n) * Pow(1024, n) + ReplacedLow(v, n, g)
  }

  lemma {:induction false} ReplacedLowBound(v: nat, k: nat, g: nat -> nat)
    requires OnDeclets(g)
    ensures ReplacedLow(v, k, g) < Pow(1024, k)
  {
    if k > 0 {
      ReplacedLowBound(v, k - 1, g);
      var c := g(DecletAt(v, k - 1));
      MulMono(c + 1, 1024, Pow(1024, k - 1));
      assert (c + 1) * Pow(1024, k - 1) == c * Pow(1024, k - 1) + Pow(1024, k - 1);
    }
  }

  lemma PowerNext(k: nat)
    ensures Pow(1024, k + 1) == 1024 * Pow(1024, k)
  {}

  /** Replacing the kth declet as well is the next step. */
  lemma NextDeclet(v: nat, v0: nat, k: nat, g: nat -> nat)
    requires OnDeclets(g) && v == Replaced(v0, k, g)
    ensures DecletAt(v, k) == DecletAt(v0, k) && v / Pow(1024, k) == v0 / Pow(1024, k)
    ensures v + (g(DecletAt(v0, k)) - DecletAt(v0, k)) * Pow(1024, k) == Replaced(v0, k + 1, g)
  {
    hide Pow;
    ReplacedLowBound(v0, k, g);
    var p := Pow(1024, k);
    var h := v0 / p;
    DivModUnique(v, p, h, ReplacedLow(v0, k, g));
    PowerNext(k);
    DivBounds(h, 1024);
    NestedDivision(v0, p, 1024);
    DecletArith(h, h / 1024, h % 1024, g(h % 1024), p);
  }

  lemma DecletArith(h: nat, q: nat, d: nat, c: nat, p: nat)
    requires h == q * 1024 + d
    ensures h * p + (c - d) * p == q * (1024 * p) + c * p
  {}

  /** The remaining bits, seen from the current word: A is what the words to its left amount to. */
  lemma RestOf(s: seq<nat>, i: nat, o: nat, k: nat)
    requires i < |s| && AreWords(s) && o <= 32 && 10 * k == 32 * (|s| - 1 - i) + o
    ensures Pow(1024, k) == Pow(TWO32, |s| - 1 - i) * Pow(2, o)
    ensures Whole(s) / Pow(1024, k) == (Whole(s[..i]) * TWO32 + s[i]) / Pow(2, o)
  {
    hide Whole, Pow;
    BinaryPowers();
    PowPow(2, 10, k);
    PowPow(2, 32, |s| - 1 - i);
    PowAdd(2, 32 * (|s| - 1 - i), o);
    WholePrefix(s, i + 1);
    assert s[..i + 1] == s[..i] + [s[i]];
    WholeAppend(s[..i], s[i]);
    NestedDivision(Whole(s), Pow(TWO32, |s| - 1 - i), Pow(2, o));
  }

  lemma BinaryPowers()
    ensures Pow(2, 10) == 1024 && Pow(2, 32) == TWO32
  {
    assert Pow(2, 1) == 2 * Pow(2, 0);
    PowAdd(2, 1, 1);
    PowAdd(2, 2, 2);
    PowAdd(2, 4, 4);
    PowAdd(2, 8, 8);
    PowAdd(2, 8, 2);
    PowAdd(2, 16, 16);
  }

  /* ---- Reading a declet ---- */

  lemma ModMultiple(x: nat, y: nat, m: nat)
    requires m > 0
    ensures (x * m + y) % m == y % m
  {
    DivBounds(y, m);
    DivModUnique(x * m + y, m, x + y / m, y % m);
    assert (x + y / m) * m == x * m + y / m * m;
  }

  /** All ten bits are in the word x; the words to its left do not matter. */
  lemma ReadWithin(a: nat, x: nat, t: nat, u: nat, m: nat)
    requires t > 0 && t * u == TWO32 && u == 1024 * m
    ensures (a * TWO32 + x) / t % 1024 == x / t % 1024
  {
    QuotientOfSum(a, x, t, u);
    MulAssoc(a, m, 1024);
    ModMultiple(a * m, x / t, 1024);
  }

  lemma QuotientOfSum(a: nat, x: nat, t: nat, u: nat)
    requires t > 0 && t * u == TWO32
    ensures (a * TWO32 + x) / t == a * u + x / t
  {
    DivBounds(x, t);
    assert a * TWO32 == a * u * t by { MulAssoc(a, u, t); assert u * t == t * u; }
    assert (a * u + x / t) * t == a * u * t + x / t * t;
    DivModUnique(a * TWO32 + x, t, a * u + x / t, x % t);
  }

  /** The low bits are at the top of x, the others at the bottom of the word y on its left. */
  lemma ReadStraddling(a: nat, y: nat, x: nat, t: nat, u: nat)
    requires t > 0 && t * u == TWO32
    ensures ((a * TWO32 + y) * TWO32 + x) / t % 1024 == (x / t + y * u) % 1024
  {
    hide *;
    MulMono(0, a, u);
    MulMono(0, y, u);
    DivBounds(x, t);
    QuotientNat(x, t);
    QuotientOfSum(a * TWO32 + y, x, t, u);
    HigherWord(a, y, u);
    DropHigher(a * u, y * u, x / t, (a * TWO32 + y) * u);
  }

  lemma DropHigher(b: nat, z: nat, q: nat, s: nat)
    requires s == b * 0x40_0000 * 1024 + z
    ensures (s + q) % 1024 == (q + z) % 1024
  {
    ModMultiple(b * 0x40_0000, q + z, 1024);
  }

  lemma HigherWord(a: nat, y: nat, u: nat)
    ensures (a * TWO32 + y) * u == a * u * 0x40_0000 * 1024 + y * u
  {
    var b := a * u;
    assert a * TWO32 * u == b * TWO32 by { SwapLast(a, TWO32, u); }
    assert (a * TWO32 + y) * u == a * TWO32 * u + y * u;
  }

  lemma SwapLast(x: nat, y: nat, z: nat)
    ensures x * y * z == x * z * y
  {}

  /** Where the loop is: k declets lie to the right of bit uoff of the word at inword. */
  ghost predicate AtBit(s: seq<nat>, inword: nat, uoff: nat, encode: nat, k: nat) {
    inword < |s| && AreWords(s) && encode == s[inword] && uoff <= 32 && 10 * k == 32 * (|s| - 1 - inword) + uoff
  }

  /** encode >> uoff, with the pending bits of the word to the left if that is not enough. */
  method ReadDeclet(df: array<nat>, inword0: nat, uoff0: nat, encode0: nat, ghost k: nat)
    returns (dpd: nat, inword: nat, uoff: nat, encode: nat)
    requires AtBit(df[..], inword0, uoff0, encode0, k) && 10 * (k + 1) <= 32 * df.Length
    ensures AtBit(df[..], inword, uoff, encode, k + 1) && dpd == DecletAt(Whole(df[..]), k)
    ensures uoff > 0 && (uoff < 10 ==> inword + 1 < df.Length)
  {
    hide Whole, Pow;
    ghost var s := df[..];
    inword, uoff, encode := inword0, uoff0, encode0;
    RestOf(s, inword, uoff, k);
    ghost var t, u := Pow(2, uoff), Pow(2, 32 - uoff);
    WordPowers(uoff);
    dpd := encode / Pow(2, uoff);
    uoff := uoff + 10;
    if uoff > 32 {
      inword := inword - 1;
      encode := df[inword];
      uoff := uoff - 32;
      dpd := dpd + encode * Pow(2, 10 - uoff) % TWO32;
      assert s[..inword + 1] == s[..inword] + [encode];
      WholeAppend(s[..inword], encode);
      ReadStraddling(Whole(s[..inword]), encode, encode0, t, u);
      LowTen(encode0 / t, encode * u);
    } else {
      ReadWithin(Whole(s[..inword]), encode, t, u, Pow(2, 32 - uoff));
    }
    dpd := dpd % 1024;
  }

  /** Only the low ten bits of what is shifted in matter. */
  lemma LowTen(x: nat, y: nat)
    ensures (x + y % TWO32) % 1024 == (x + y) % 1024
  {
    DivBounds(y, TWO32);
    ModMultiple(y / TWO32 * (TWO32 / 1024), x + y % TWO32, 1024);
  }

  lemma WordPowers(o: nat)
    requires o <= 32
    ensures Pow(2, o) * Pow(2, 32 - o) == TWO32
    ensures o <= 22 ==> Pow(2, 32 - o) == 1024 * Pow(2, 22 - o)
    ensures o >= 10 ==> Pow(2, o) == 1024 * Pow(2, o - 10)
    ensures o >= 22 ==> 1024 == Pow(2, 32 - o) * Pow(2, o - 22)
  {
    hide Pow;
    BinaryPowers();
    PowAdd(2, o, 32 - o);
    if o <= 22 { PowAdd(2, 10, 22 - o); }
    if o >= 10 { PowAdd(2, 10, o - 10); }
    if o >= 22 { PowAdd(2, 32 - o, o - 22); }
  }

  /* ---- Replacing a declet ---- */

  /** Ten bits of a word replaced. */
  lemma ReplaceWithin(x: nat, t: nat, u: nat, m: nat, c: nat)
    requires x < TWO32 && t > 0 && t * u == TWO32 && u == 1024 * m && c < 1024
    ensures var d := x / t % 1024; var y := x - d * t + c * t;
      d * t <= x && y < TWO32 && y == x + (c - d) * t
  {
    var d := x / t % 1024;
    var h := x / t / 1024;
    DivBounds(x, t);
    DivBounds(x / t, 1024);
    DivLt(x, t, u);
    WithinArith(x, t, x / t, h, d, m, c);
  }

  lemma WithinArith(x: nat, t: nat, q: nat, h: nat, d: nat, m: nat, c: nat)
    requires q * t <= x < q * t + t && q == h * 1024 + d && q < 1024 * m && d < 1024 && c < 1024
    requires t * (1024 * m) == TWO32
    ensures d * t <= x && x - d * t + c * t < TWO32 && x - d * t + c * t == x + (c - d) * t
  {
    assert q * t == h * 1024 * t + d * t by { assert (h * 1024 + d) * t == h * 1024 * t + d * t; }
    MulMono(0, h * 1024, t);
    MulMono(h * 1024 + c + 1, 1024 * m, t);
    assert (h * 1024 + c + 1) * t == h * 1024 * t + c * t + t;
    assert 1024 * m * t == t * (1024 * m);
    assert (c - d) * t == c * t - d * t;
  }

  /** The low part of a declet at the top of one word and the rest at the bottom of the word to the left. */
  lemma ReplaceStraddling(pre: nat, encode: nat, t: nat, u: nat, w: nat, c: nat, p: nat)
    requires pre < TWO32 && encode < TWO32 && t > 0 && u > 0 && w > 0 && t * u == TWO32 && u * w == 1024 && c < 1024
    ensures var d := (pre / t + encode * u) % 1024;
      var pre', encode' := pre % t + c * t % TWO32, encode / w * w + c / u;
      && pre' < TWO32 && encode' < TWO32
      && (pre' - pre) * p + (encode' - encode) * (TWO32 * p) == (c - d) * (p * t)
  {
    hide *;
    QuotientNat(pre, t);
    QuotientNat(encode, w);
    QuotientNat(c, u);
    var low, high := pre / t, encode % w;
    DivBounds(pre, t);
    DivBounds(encode, w);
    DivBounds(c, u);
    WordSplit(t, u, w);
    DivLt(pre, t, u);
    DivLt(c, u, w);
    StraddledDeclet(low, encode, u, w);
    ShiftedLow(c, t, u);
    WordFits(c % u, t, u, pre % t);
    RoundDown(encode, w, u * 0x40_0000, c / u);
    StraddleArith(pre, t, low, c % u, encode, w, high, c / u, u, p);
  }

  lemma WordSplit(t: nat, u: nat, w: nat)
    requires t * u == TWO32 && u * w == 1024
    ensures u * t == TWO32 && w * u == 1024 && w * (u * 0x40_0000) == TWO32
  {
    assert u * t == t * u && w * u == u * w;
    MulAssoc(w, u, 0x40_0000);
  }

  lemma StraddledDeclet(low: nat, encode: nat, u: nat, w: nat)
    requires low < u && u * w == 1024 && w > 0
    ensures (low + encode * u) % 1024 == low + encode % w * u
  {
    DivBounds(encode, w);
    var q, r := encode / w, encode % w;
    assert encode * u == q * w * u + r * u by { assert (q * w + r) * u == q * w * u + r * u; }
    assert q * w * u == q * 1024 by { MulAssoc(q, w, u); assert w * u == u * w; }
    MulMono(r + 1, w, u);
    assert (r + 1) * u == r * u + u;
    assert w * u == u * w;
    DivModUnique(low + encode * u, 1024, q, low + r * u);
  }

  lemma ShiftedLow(c: nat, t: nat, u: nat)
    requires t > 0 && u > 0 && t * u == TWO32
    ensures c * t % TWO32 == c % u * t
  {
    ScaleDivMod(c, u, t);
    assert u * t == t * u;
  }

  lemma WordFits(x: nat, t: nat, u: nat, r: nat)
    requires x < u && r < t && t * u == TWO32
    ensures r + x * t < TWO32
  {
    MulMono(x + 1, u, t);
    assert (x + 1) * t == x * t + t && u * t == t * u;
  }

  lemma RoundDown(x: nat, w: nat, k: nat, y: nat)
    requires x < TWO32 && w > 0 && y < w && w * k == TWO32
    ensures x / w * w + y < TWO32
  {
    assert w * k == k * w;
    DivLt(x, w, k);
    MulMono(x / w + 1, k, w);
    assert (x / w + 1) * w == x / w * w + w;
  }

  lemma StraddleArith(pre: nat, t: nat, low: nat, cl: nat, encode: nat, w: nat, high: nat, ch: nat, u: nat, p: nat)
    requires t * u == TWO32
    requires pre == low * t + pre % t && t > 0 && w > 0 && encode == encode / w * w + high
    ensures ((pre % t + cl * t) - pre) * p + ((encode / w * w + ch) - encode) * (TWO32 * p)
         == ((ch * u + cl) - (low + high * u)) * (p * t)
  {
    var x, y := cl - low, ch - high;
    assert (pre % t + cl * t) - pre == x * t by { assert (cl - low) * t == cl * t - low * t; }
    assert (ch * u + cl) - (low + high * u) == x + y * u by { assert (ch - high) * u == ch * u - high * u; }
    assert x * t * p == x * (p * t);
    assert y * (TWO32 * p) == y * u * (p * t) by { assert TWO32 * p == u * (p * t); MulAssoc(y, u, p * t); }
    assert (x + y * u) * (p * t) == x * (p * t) + y * u * (p * t);
  }

  /** Puts a declet where one was read, within a word or across two. */
  method WriteDeclet(df: array<nat>, inword: nat, uoff: nat, encode0: nat, canon: nat, ghost k: nat)
    returns (encode: nat)
    requires AtBit(df[..], inword, uoff, encode0, k + 1) && canon < 1024
    requires uoff > 0 && (uoff < 10 ==> inword + 1 < df.Length)
    modifies df
    ensures AtBit(df[..], inword, uoff, encode, k + 1)
    ensures Whole(df[..]) == old(Whole(df[..])) + (canon - old(DecletAt(Whole(df[..]), k))) * Pow(1024, k)
  {
    hide Whole, Pow, DecletAt, AtBit;
    if uoff >= 10 {
      encode := WriteWithin(df, inword, uoff, encode0, canon, k);
    } else {
      encode := WriteAcross(df, inword, uoff, encode0, canon, k);
    }
  }

  method WriteWithin(df: array<nat>, inword: nat, uoff: nat, encode0: nat, canon: nat, ghost k: nat)
    returns (encode: nat)
    requires AtBit(df[..], inword, uoff, encode0, k + 1) && canon < 1024 && uoff >= 10
    modifies df
    ensures AtBit(df[..], inword, uoff, encode, k + 1)
    ensures Whole(df[..]) == old(Whole(df[..])) + (canon - old(DecletAt(Whole(df[..]), k))) * Pow(1024, k)
  {
    hide Whole, Pow, DecletAt;
    ghost var s := df[..];
    WithinWord(s, inword, uoff, canon, k);
    encode := encode0 - encode0 / Pow(2, uoff - 10) % 1024 * Pow(2, uoff - 10);
    encode := encode + canon * Pow(2, uoff - 10);
    df[inword] := encode;
    assert df[..] == s[inword := encode];
    WholeUpdate(s, inword, encode);
  }

  /** What writing within a word adds to the whole. */
  lemma WithinWord(s: seq<nat>, inword: nat, uoff: nat, canon: nat, k: nat)
    requires inword < |s| && AtBit(s, inword, uoff, s[inword], k + 1) && canon < 1024 && uoff >= 10
    ensures var encode, t := s[inword], Pow(2, uoff - 10);
      var encode' := encode - encode / t % 1024 * t + canon * t;
      && 0 <= encode - encode / t % 1024 * t && 0 <= encode' < TWO32
      && (encode' - encode) * Pow(TWO32, |s| - 1 - inword) == (canon - DecletAt(Whole(s), k)) * Pow(1024, k)
  {
    hide Whole, Pow;
    var encode, t := s[inword], Pow(2, uoff - 10);
    RestOf(s, inword, uoff - 10, k);
    WordPowers(uoff - 10);
    ReadWithin(Whole(s[..inword]), encode, t, Pow(2, 42 - uoff), Pow(2, 32 - uoff));
    ReplaceWithin(encode, t, Pow(2, 42 - uoff), Pow(2, 32 - uoff), canon);
    var encode' := encode - encode / t % 1024 * t + canon * t;
    OneWord(encode' - encode, canon - DecletAt(Whole(s), k), t, Pow(TWO32, |s| - 1 - inword));
  }

  lemma OneWord(x: int, y: int, t: nat, p: nat)
    requires x == y * t
    ensures x * p == y * (p * t)
  {
    MulAssoc(y, t, p);
    assert t * p == p * t;
  }

  /** Two neighbouring words replaced. */
  method WriteTwo(df: array<nat>, i: nat, x: nat, y: nat)
    requires i + 1 < df.Length && AreWords(df[..]) && x < TWO32 && y < TWO32
    modifies df
    ensures AreWords(df[..]) && df[..] == old(df[..])[i + 1 := y][i := x]
    ensures Whole(df[..]) == old(Whole(df[..])) + (y - old(df[i + 1])) * Pow(TWO32, df.Length - 2 - i)
                             + (x - old(df[i])) * (TWO32 * Pow(TWO32, df.Length - 2 - i))
  {
    hide Whole, Pow;
    ghost var s := df[..];
    df[i + 1] := y;
    df[i] := x;
    ghost var r := s[i + 1 := y];
    assert df[..] == r[i := x];
    WholeUpdate(s, i + 1, y);
    WholeUpdate(r, i, x);
    PowerOfWords(|s| - 2 - i);
  }

  method WriteAcross(df: array<nat>, inword: nat, uoff: nat, encode0: nat, canon: nat, ghost k: nat)
    returns (encode: nat)
    requires AtBit(df[..], inword, uoff, encode0, k + 1) && canon < 1024 && 0 < uoff < 10 && inword + 1 < df.Length
    modifies df
    ensures AtBit(df[..], inword, uoff, encode, k + 1)
    ensures Whole(df[..]) == old(Whole(df[..])) + (canon - old(DecletAt(Whole(df[..]), k))) * Pow(1024, k)
  {
    hide Whole, Pow, DecletAt;
    AcrossWords(df[..], inword, uoff, canon, k);
    var precode := df[inword + 1];
    precode := precode % Pow(2, 22 + uoff) + canon * Pow(2, 22 + uoff) % TWO32;
    encode := encode0 / Pow(2, uoff) * Pow(2, uoff) + canon / Pow(2, 10 - uoff);
    WriteTwo(df, inword, encode, precode);
  }

  /** What writing across two words adds to the whole. */
  lemma AcrossWords(s: seq<nat>, inword: nat, uoff: nat, canon: nat, k: nat)
    requires inword + 1 < |s| && AtBit(s, inword, uoff, s[inword], k + 1) && canon < 1024 && 0 < uoff < 10
    ensures var pre, encode := s[inword + 1], s[inword];
      var pre' := pre % Pow(2, 22 + uoff) + canon * Pow(2, 22 + uoff) % TWO32;
      var encode' := encode / Pow(2, uoff) * Pow(2, uoff) + canon / Pow(2, 10 - uoff);
      var p := Pow(TWO32, |s| - 2 - inword);
      && 0 <= pre' < TWO32 && 0 <= encode' < TWO32
      && (pre' - pre) * p + (encode' - encode) * (TWO32 * p) == (canon - DecletAt(Whole(s), k)) * Pow(1024, k)
  {
    hide Whole, Pow;
    var o := 22 + uoff;
    RestOf(s, inword + 1, o, k);
    WordPowers(o);
    assert s[..inword + 1] == s[..inword] + [s[inword]];
    WholeAppend(s[..inword], s[inword]);
    ReadStraddling(Whole(s[..inword]), s[inword], s[inword + 1], Pow(2, o), Pow(2, 10 - uoff));
    ReplaceStraddling(s[inword + 1], s[inword], Pow(2, o), Pow(2, 10 - uoff), Pow(2, uoff), canon,
        Pow(TWO32, |s| - 2 - inword));
    QuotientNat(canon, Pow(2, 10 - uoff));
    QuotientNat(s[inword], Pow(2, uoff));
    MulMono(0, s[inword] / Pow(2, uoff), Pow(2, uoff));
  }

  lemma PowerOfWords(n: nat)
    ensures Pow(TWO32, n + 1) == TWO32 * Pow(TWO32, n)
  {}

  /** One declet of the repair loop. */
  method RepairDeclet(df: array<nat>, inword0: nat, uoff0: nat, encode0: nat, ghost v0: nat, ghost k: nat)
    returns (inword: nat, uoff: nat, encode: nat)
    requires AtBit(df[..], inword0, uoff0, encode0, k) && 10 * (k + 1) <= 32 * df.Length
    requires Whole(df[..]) == Replaced(v0, k, Canonical)
    modifies df
    ensures AtBit(df[..], inword, uoff, encode, k + 1) && Whole(df[..]) == Replaced(v0, k + 1, Canonical)
  {
    hide Whole, Pow, Replaced, Canonical, DecletAt, AtBit;
    ghost var v := Whole(df[..]);
    var dpd;
    dpd, inword, uoff, encode := ReadDeclet(df, inword0, uoff0, encode0, k);
    OnlyDeclets();
    NextDeclet(v, v0, k, Canonical);
    DecletBound(v, k);
    LowIsCanonical(dpd);
    CanonicalIs(dpd);
    NoChange(k);
    if dpd < 0x16e { return; }
    var canon := Canonical(dpd);
    if canon == dpd { return; }
    encode := WriteDeclet(df, inword, uoff, encode, canon, k);
  }

  lemma NoChange(k: nat)
    ensures 0 * Pow(1024, k) == 0
  {}

  /** The repair loop: the n low declets become canonical, in place; all other bits stay. */
  method CanonicalDeclets(df: array<nat>, declets: nat)
    requires AreWords(df[..]) && df.Length > 0 && 10 * declets <= 32 * df.Length
    modifies df
    ensures AreWords(df[..]) && Whole(df[..]) == Replaced(old(Whole(df[..])), declets, Canonical)
  {
    hide Whole, Pow, Replaced, Canonical, DecletAt, AtBit;
    ghost var v0 := Whole(df[..]);
    var inword: nat, uoff: nat := df.Length - 1, 0;
    var encode := df[inword];
    ghost var k: nat := 0;
    StartDeclets(df[..], v0, encode);
    var n := declets - 1;
    while n >= 0
      invariant -1 <= n && k == declets - 1 - n
      invariant AtBit(df[..], inword, uoff, encode, k) && Whole(df[..]) == Replaced(v0, k, Canonical)
    {
      inword, uoff, encode := RepairDeclet(df, inword, uoff, encode, v0, k);
      n, k := n - 1, k + 1;
    }
    WordsOf(df[..], inword, uoff, encode, k);
  }

  lemma DecletBound(v: nat, k: nat)
    ensures DecletAt(v, k) < 1024
  {}

  lemma OnlyDeclets()
    ensures OnDeclets(Canonical)
  {}

  lemma StartDeclets(s: seq<nat>, v0: nat, encode: nat)
    requires |s| > 0 && AreWords(s) && encode == s[|s| - 1]
    ensures AtBit(s, |s| - 1, 0, encode, 0) && Replaced(v0, 0, Canonical) == v0
  {}

  lemma WordsOf(s: seq<nat>, inword: nat, uoff: nat, encode: nat, k: nat)
    requires AtBit(s, inword, uoff, encode, k)
    ensures AreWords(s)
  {}
}
