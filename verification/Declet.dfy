/** Densely packed decimal, from the equations of section 3.5.2 of IEEE 754-2008: three digits in ten
    bits, p q r s t u v w x y from the most significant. */
module Declet {
  import opened Arith

  /** The three digits of a declet. */
  datatype Triple = Triple(d2: nat, d1: nat, d0: nat)

  predicate AreThree(t: Triple) {
    t.d2 <= 9 && t.d1 <= 9 && t.d0 <= 9
  }

  /** The bits of a declet, the pairs pq, st and wx kept together. */
  datatype Bits = Bits(pq: nat, r: nat, st: nat, u: nat, v: nat, wx: nat, y: nat)

  predicate AreBits(b: Bits) {
    b.pq < 4 && b.r < 2 && b.st < 4 && b.u < 2 && b.v < 2 && b.wx < 4 && b.y < 2
  }

  function Join(b: Bits): nat {
    b.pq * 256 + b.r * 128 + b.st * 32 + b.u * 16 + b.v * 8 + b.wx * 2 + b.y
  }

  function Split(dpd: nat): Bits {
    Bits(dpd / 256 % 4, dpd / 128 % 2, dpd / 32 % 4, dpd / 16 % 2, dpd / 8 % 2, dpd / 2 % 4, dpd % 2)
  }

  lemma SplitJoin(b: Bits)
    requires AreBits(b)
    ensures Split(Join(b)) == b && Join(b) < 1024
  {
    var d := Join(b);
    DivModUnique(d, 256, b.pq, b.r * 128 + b.st * 32 + b.u * 16 + b.v * 8 + b.wx * 2 + b.y);
    DivModUnique(d, 128, b.pq * 2 + b.r, b.st * 32 + b.u * 16 + b.v * 8 + b.wx * 2 + b.y);
    DivModUnique(d, 32, b.pq * 8 + b.r * 4 + b.st, b.u * 16 + b.v * 8 + b.wx * 2 + b.y);
    DivModUnique(d, 16, b.pq * 16 + b.r * 8 + b.st * 2 + b.u, b.v * 8 + b.wx * 2 + b.y);
    DivModUnique(d, 8, b.pq * 32 + b.r * 16 + b.st * 4 + b.u * 2 + b.v, b.wx * 2 + b.y);
    DivModUnique(d, 2, b.pq * 128 + b.r * 64 + b.st * 16 + b.u * 8 + b.v * 4 + b.wx, b.y);
    Remainders(b);
  }

  lemma Remainders(b: Bits)
    requires AreBits(b)
    ensures b.pq % 4 == b.pq && (b.pq * 2 + b.r) % 2 == b.r && (b.pq * 8 + b.r * 4 + b.st) % 4 == b.st
    ensures (b.pq * 16 + b.r * 8 + b.st * 2 + b.u) % 2 == b.u
    ensures (b.pq * 32 + b.r * 16 + b.st * 4 + b.u * 2 + b.v) % 2 == b.v
    ensures (b.pq * 128 + b.r * 64 + b.st * 16 + b.u * 8 + b.v * 4 + b.wx) % 4 == b.wx
  {
    DivModUnique(b.pq * 8 + b.r * 4 + b.st, 4, b.pq * 2 + b.r, b.st);
    DivModUnique(b.pq * 16 + b.r * 8 + b.st * 2 + b.u, 2, b.pq * 8 + b.r * 4 + b.st, b.u);
    DivModUnique(b.pq * 32 + b.r * 16 + b.st * 4 + b.u * 2 + b.v, 2, b.pq * 16 + b.r * 8 + b.st * 2 + b.u, b.v);
    DivModUnique(b.pq * 128 + b.r * 64 + b.st * 16 + b.u * 8 + b.v * 4 + b.wx, 4,
                 b.pq * 32 + b.r * 16 + b.st * 4 + b.u * 2 + b.v, b.wx);
  }

  lemma JoinSplit(dpd: nat)
    requires dpd < 1024
    ensures AreBits(Split(dpd)) && Join(Split(dpd)) == dpd
  {
    var x1 := dpd / 2;
    var x2 := x1 / 4;
    var x3 := x2 / 2;
    var x4 := x3 / 2;
    var x5 := x4 / 4;
    var x6 := x5 / 2;
    var b := Bits(x6, x5 % 2, x4 % 4, x3 % 2, x2 % 2, x1 % 4, dpd % 2);
    assert Join(b) == dpd && AreBits(b);
    SplitJoin(b);
  }

  /** v, w, x, s and t say which digits are 8 or 9; those keep only their last bit. */
  function Digits3(b: Bits): (t: Triple)
    requires AreBits(b)
    ensures AreThree(t)
  {
    if b.v == 0 then Triple(2 * b.pq + b.r, 2 * b.st + b.u, 2 * b.wx + b.y)
    else if b.wx == 0 then Triple(2 * b.pq + b.r, 2 * b.st + b.u, 8 + b.y)
    else if b.wx == 1 then Triple(2 * b.pq + b.r, 8 + b.u, 2 * b.st + b.y)
    else if b.wx == 2 then Triple(8 + b.r, 2 * b.st + b.u, 2 * b.pq + b.y)
    else if b.st == 0 then Triple(8 + b.r, 8 + b.u, 2 * b.pq + b.y)
    else if b.st == 1 then Triple(8 + b.r, 2 * b.pq + b.u, 8 + b.y)
    else if b.st == 2 then Triple(2 * b.pq + b.r, 8 + b.u, 8 + b.y)
    else Triple(8 + b.r, 8 + b.u, 8 + b.y)
  }

  function Bits3(t: Triple): (b: Bits)
    requires AreThree(t)
    ensures AreBits(b)
  {
    var a, b, c := t.d2, t.d1, t.d0;
    if a < 8 && b < 8 && c < 8 then Bits(a / 2, a % 2, b / 2, b % 2, 0, c / 2, c % 2)
    else if a < 8 && b < 8 then Bits(a / 2, a % 2, b / 2, b % 2, 1, 0, c % 2)
    else if a < 8 && c < 8 then Bits(a / 2, a % 2, c / 2, b % 2, 1, 1, c % 2)
    else if b < 8 && c < 8 then Bits(c / 2, a % 2, b / 2, b % 2, 1, 2, c % 2)
    else if c < 8 then Bits(c / 2, a % 2, 0, b % 2, 1, 3, c % 2)
    else if b < 8 then Bits(b / 2, a % 2, 1, b % 2, 1, 3, c % 2)
    else if a < 8 then Bits(a / 2, a % 2, 2, b % 2, 1, 3, c % 2)
    else Bits(0, a % 2, 3, b % 2, 1, 3, c % 2)
  }

  lemma DigitsOfBits(t: Triple)
    requires AreThree(t)
    ensures Digits3(Bits3(t)) == t
  {
    Halved(t.d2);
    Halved(t.d1);
    Halved(t.d0);
  }

  lemma Halved(d: nat)
    requires d <= 9
    ensures 2 * (d / 2) + d % 2 == d && d % 2 < 2 && (d >= 8 ==> 8 + d % 2 == d) && (d < 8 ==> d / 2 < 4)
  {}

  /** The redundant patterns have all three digits large and p or q set. */
  predicate RedundantBits(b: Bits) {
    b.v == 1 && b.wx == 3 && b.st == 3 && b.pq != 0
  }

  lemma BitsOfDigits(b: Bits)
    requires AreBits(b)
    ensures Bits3(Digits3(b)) == b <==> !RedundantBits(b)
  {
    Half(b.pq, b.r); Half(b.st, b.u); Half(b.wx, b.y); Half(b.st, b.y); Half(b.pq, b.y); Half(b.pq, b.u);
    Half(4, b.r); Half(4, b.u); Half(4, b.y);
  }

  lemma Half(h: nat, l: nat)
    requires l < 2
    ensures (2 * h + l) / 2 == h && (2 * h + l) % 2 == l
  {}

  /* ---- On the ten-bit numbers themselves ---- */

  /** DPD2BCD */
  function Unpack(dpd: nat): (t: Triple)
    ensures AreThree(t)
  {
    assert AreBits(Split(dpd));
    Digits3(Split(dpd))
  }

  /** BCD2DPD */
  function Pack(t: Triple): (dpd: nat)
    requires AreThree(t)
    ensures dpd < 1024 && Unpack(dpd) == t
  {
    SplitJoin(Bits3(t));
    DigitsOfBits(t);
    Join(Bits3(t))
  }

  /* ---- The equations of the standard ---- */

  /** The bit of weight w. */
  predicate Bit(n: nat, w: nat)
    requires w > 0
  {
    n / w % 2 == 1
  }

  /** The upper and the lower bit of a pair. */
  predicate Upper(pair: nat) { pair / 2 == 1 }

  predicate Lower(pair: nat) { pair % 2 == 1 }

  lemma AllPairs()
    ensures !Upper(0) && !Lower(0) && !Upper(1) && Lower(1) && Upper(2) && !Lower(2) && Upper(3) && Lower(3)
    ensures forall pair: nat :: pair < 2 ==> (Lower(pair) <==> pair == 1)
  {}

  lemma PairBits(x: nat)
    ensures x % 4 / 2 == x / 2 % 2 && x % 4 % 2 == x % 2
  {
    var q, r := x / 4, x % 4;
    DivModUnique(x, 2, 2 * q + r / 2, r % 2);
    DivModUnique(2 * q + r / 2, 2, q, r / 2);
  }

  /** The ten bits of a declet, and its fields. */
  lemma BitsOfDeclet(n: nat)
    ensures var b := Split(n);
      && (Bit(n, 512) <==> Upper(b.pq)) && (Bit(n, 256) <==> Lower(b.pq)) && (Bit(n, 128) <==> Lower(b.r))
      && (Bit(n, 64) <==> Upper(b.st)) && (Bit(n, 32) <==> Lower(b.st)) && (Bit(n, 16) <==> Lower(b.u))
      && (Bit(n, 8) <==> Lower(b.v))
      && (Bit(n, 4) <==> Upper(b.wx)) && (Bit(n, 2) <==> Lower(b.wx)) && (Bit(n, 1) <==> Lower(b.y))
  {
    NestedDivision(n, 256, 2);
    NestedDivision(n, 32, 2);
    NestedDivision(n, 2, 2);
    PairBits(n / 256);
    PairBits(n / 32);
    PairBits(n / 2);
  }

  /** The four bits of a digit. */
  lemma BitsOfDigit(d: nat)
    requires d <= 9
    ensures (Bit(d, 8) <==> d >= 8) && (Bit(d, 4) <==> d < 8 && Upper(d / 2))
    ensures (Bit(d, 2) <==> d < 8 && Lower(d / 2)) && (Bit(d, 1) <==> Lower(d % 2))
  {}

  /** The ten bits of a declet. */
  predicate DecletIs(n: nat, p: bool, q: bool, r: bool, s: bool, t: bool, u: bool, v: bool, w: bool, x: bool, y: bool) {
    && Bit(n, 512) == p && Bit(n, 256) == q && Bit(n, 128) == r && Bit(n, 64) == s && Bit(n, 32) == t
    && Bit(n, 16) == u && Bit(n, 8) == v && Bit(n, 4) == w && Bit(n, 2) == x && Bit(n, 1) == y
  }

  /** The four bits of a digit. */
  predicate DigitIs(d: nat, a: bool, b: bool, c: bool, e: bool) {
    Bit(d, 8) == a && Bit(d, 4) == b && Bit(d, 2) == c && Bit(d, 1) == e
  }

  lemma PackedFields(t: Triple)
    requires AreThree(t)
    ensures Split(Pack(t)) == Bits3(t)
  {
    SplitJoin(Bits3(t));
  }

  /** Section 3.5.2, packing: the declet's bits p..y from the digits' bits a..m. */
  lemma PackEquations(z: Triple, a: bool, b: bool, c: bool, d: bool, e: bool, f: bool, g: bool, h: bool,
                      i: bool, j: bool, k: bool, m: bool)
    requires AreThree(z) && DigitIs(z.d2, a, b, c, d) && DigitIs(z.d1, e, f, g, h) && DigitIs(z.d0, i, j, k, m)
    ensures DecletIs(Pack(z),
      b || (a && j) || (a && f && i),
      c || (a && k) || (a && g && i),
      d,
      (f && (!a || !i)) || (!a && e && j) || (e && i),
      g || (!a && e && k) || (a && i),
      h,
      a || e || i,
      a || (e && i) || (!e && j),
      e || (a && i) || (!a && k),
      m)
  {
    hide Split, Join, Bit, Unpack, Pack, Upper, Lower;
    PackedFields(z);
    BitsOfDeclet(Pack(z));
    BitsOfDigit(z.d2);
    BitsOfDigit(z.d1);
    BitsOfDigit(z.d0);
    AllPairs();
  }

  /** The bits of a digit put together from a pair and a bit, or from 8 and a bit. */
  lemma BitsOfPair(h: nat, l: nat)
    requires h < 4 && l < 2
    ensures var d := 2 * h + l;
      !Bit(d, 8) && (Bit(d, 4) <==> Upper(h)) && (Bit(d, 2) <==> Lower(h)) && (Bit(d, 1) <==> Lower(l))
    ensures Bit(8 + l, 8) && !Bit(8 + l, 4) && !Bit(8 + l, 2) && (Bit(8 + l, 1) <==> Lower(l))
  {}

  lemma UnpackedFields(n: nat)
    requires n < 1024
    ensures AreBits(Split(n)) && Unpack(n) == Digits3(Split(n))
  {
    JoinSplit(n);
  }

  /** The two bits say which pair it is. */
  lemma PairsApart(x: nat)
    requires x < 4
    ensures (x == 0 <==> !Upper(x) && !Lower(x)) && (x == 1 <==> !Upper(x) && Lower(x))
    ensures (x == 2 <==> Upper(x) && !Lower(x)) && (x == 3 <==> Upper(x) && Lower(x))
  {}

  /** Which row of the table a declet is in. */
  lemma RowIs(b: Bits, v: bool, w: bool, x: bool, s: bool, t: bool)
    requires AreBits(b) && v == Lower(b.v)
    requires w == Upper(b.wx) && x == Lower(b.wx) && s == Upper(b.st) && t == Lower(b.st)
    ensures (b.v == 0 <==> !v) && (b.wx == 0 <==> !w && !x) && (b.wx == 1 <==> !w && x) && (b.wx == 2 <==> w && !x)
    ensures (b.st == 0 <==> !s && !t) && (b.st == 1 <==> !s && t) && (b.st == 2 <==> s && !t)
  {
    PairsApart(b.wx);
    PairsApart(b.st);
  }

  lemma HighRow(b: Bits)
    requires AreBits(b)
    ensures Digits3(b).d2 == if b.v == 0 || b.wx < 2 || (b.wx == 3 && b.st == 2) then 2 * b.pq + b.r else 8 + b.r
  {}

  lemma HighDigit(b: Bits, p: bool, q: bool, r: bool, s: bool, t: bool, v: bool, w: bool, x: bool)
    requires AreBits(b) && p == Upper(b.pq) && q == Lower(b.pq) && r == Lower(b.r)
    requires v == Lower(b.v) && w == Upper(b.wx) && x == Lower(b.wx) && s == Upper(b.st) && t == Lower(b.st)
    ensures DigitIs(Digits3(b).d2,
      v && w && (!s || t || !x),
      p && (!v || !w || (s && !t && x)),
      q && (!v || !w || (s && !t && x)),
      r)
  {
    hide Bit, Upper, Lower, Digits3;
    HighRow(b);
    RowIs(b, v, w, x, s, t);
    BitsOfPair(b.pq, b.r);
  }

  lemma MiddleRow(b: Bits)
    requires AreBits(b)
    ensures Digits3(b).d1 ==
      if b.v == 0 || b.wx == 0 || b.wx == 2 then 2 * b.st + b.u
      else if b.wx == 3 && b.st == 1 then 2 * b.pq + b.u else 8 + b.u
  {}

  lemma LowRow(b: Bits)
    requires AreBits(b)
    ensures Digits3(b).d0 ==
      if b.v == 0 then 2 * b.wx + b.y
      else if b.wx == 1 then 2 * b.st + b.y
      else if b.wx == 2 || (b.wx == 3 && b.st == 0) then 2 * b.pq + b.y else 8 + b.y
  {}

  lemma MiddleDigit(b: Bits, p: bool, q: bool, s: bool, t: bool, u: bool, v: bool, w: bool, x: bool)
    requires AreBits(b) && p == Upper(b.pq) && q == Lower(b.pq) && u == Lower(b.u)
    requires v == Lower(b.v) && w == Upper(b.wx) && x == Lower(b.wx) && s == Upper(b.st) && t == Lower(b.st)
    ensures DigitIs(Digits3(b).d1,
      v && ((!w && x) || (!t && x) || (s && x)),
      (s && (!v || !x)) || (p && !s && t && v && w && x),
      (t && (!v || !x)) || (q && !s && t && v && w && x),
      u)
  {
    hide Bit, Upper, Lower, Digits3;
    MiddleRow(b);
    RowIs(b, v, w, x, s, t);
    BitsOfPair(b.st, b.u);
    BitsOfPair(b.pq, b.u);
  }

  lemma LowDigit(b: Bits, p: bool, q: bool, s: bool, t: bool, v: bool, w: bool, x: bool, y: bool)
    requires AreBits(b) && p == Upper(b.pq) && q == Lower(b.pq) && y == Lower(b.y)
    requires v == Lower(b.v) && w == Upper(b.wx) && x == Lower(b.wx) && s == Upper(b.st) && t == Lower(b.st)
    ensures DigitIs(Digits3(b).d0,
      v && ((!w && !x) || (w && x && (s || t))),
      (!v && w) || (s && v && !w && x) || (p && v && w && (!x || (!s && !t))),
      (!v && x) || (t && v && !w && x) || (q && v && w && (!x || (!s && !t))),
      y)
  {
    hide Bit, Upper, Lower, Digits3;
    LowRow(b);
    RowIs(b, v, w, x, s, t);
    BitsOfPair(b.wx, b.y);
    BitsOfPair(b.st, b.y);
    BitsOfPair(b.pq, b.y);
  }

  /** Section 3.5.2, unpacking: the digits' bits from the declet's, redundant declets included. */
  lemma UnpackEquations(n: nat, p: bool, q: bool, r: bool, s: bool, t: bool, u: bool, v: bool, w: bool,
                        x: bool, y: bool)
    requires n < 1024 && DecletIs(n, p, q, r, s, t, u, v, w, x, y)
    ensures DigitIs(Unpack(n).d2,
      v && w && (!s || t || !x),
      p && (!v || !w || (s && !t && x)),
      q && (!v || !w || (s && !t && x)),
      r)
    ensures DigitIs(Unpack(n).d1,
      v && ((!w && x) || (!t && x) || (s && x)),
      (s && (!v || !x)) || (p && !s && t && v && w && x),
      (t && (!v || !x)) || (q && !s && t && v && w && x),
      u)
    ensures DigitIs(Unpack(n).d0,
      v && ((!w && !x) || (w && x && (s || t))),
      (!v && w) || (s && v && !w && x) || (p && v && w && (!x || (!s && !t))),
      (!v && x) || (t && v && !w && x) || (q && v && w && (!x || (!s && !t))),
      y)
  {
    hide Split, Join, Bit, Unpack, Upper, Lower, DigitIs, Digits3;
    UnpackedFields(n);
    BitsOfDeclet(n);
    HighDigit(Split(n), p, q, r, s, t, v, w, x);
    MiddleDigit(Split(n), p, q, s, t, u, v, w, x);
    LowDigit(Split(n), p, q, s, t, v, w, x, y);
  }

  /** One of the 24 redundant declets. */
  predicate Redundant(dpd: nat) {
    RedundantBits(Split(dpd))
  }

  /** Unpacking and packing again is the identity exactly on the declets that are not redundant. */
  lemma CanonicalIff(dpd: nat)
    requires dpd < 1024
    ensures Pack(Unpack(dpd)) == dpd <==> !Redundant(dpd)
  {
    hide Split, Join, Bits3, Digits3;
    JoinSplit(dpd);
    var b := Split(dpd);
    BitsOfDigits(b);
    SplitJoin(Bits3(Digits3(b)));
  }

  /** The code's short cut: every declet below 0x16e is canonical, and 0x16e itself is not. */
  lemma LowIsCanonical(dpd: nat)
    ensures dpd < 0x16e ==> Pack(Unpack(dpd)) == dpd
    ensures Redundant(0x16e)
  {
    if dpd < 0x16e {
      JoinSplit(dpd);
      hide Pack, Unpack;
      CanonicalIff(dpd);
    }
  }

  /** BIN2DPD after DPD2BIN clears p and q of a redundant declet and leaves the others alone. */
  function Canonical(dpd: nat): nat {
    if Redundant(dpd) then dpd % 256 else dpd
  }

  lemma CanonicalIs(dpd: nat)
    requires dpd < 1024
    ensures Canonical(dpd) == Pack(Unpack(dpd)) && Canonical(dpd) < 1024
    ensures Unpack(Canonical(dpd)) == Unpack(dpd) && Canonical(Canonical(dpd)) == Canonical(dpd)
  {
    hide Pack, Unpack;
    JoinSplit(dpd);
    CanonicalIff(dpd);
    var c := Pack(Unpack(dpd));
    CanonicalIff(c);
    if Redundant(dpd) {
      var b := Split(dpd);
      SplitJoin(b.(pq := 0));
      assert Join(b.(pq := 0)) == dpd % 256 by { DivModUnique(dpd, 256, b.pq, Join(b.(pq := 0))); }
      SameDigits(b, dpd);
    }
  }

  lemma SameDigits(b: Bits, dpd: nat)
    requires AreBits(b) && RedundantBits(b) && Split(dpd) == b && Split(dpd % 256) == b.(pq := 0) && dpd % 256 < 1024
    ensures Pack(Unpack(dpd)) == dpd % 256
  {
    assert Unpack(dpd) == Unpack(dpd % 256);
    hide Pack, Unpack;
    CanonicalIff(dpd % 256);
  }
}
