/** The interchange encoding of IEEE 754-2008 section 3.5.2: fields, declets, and the conversions between
    words and BCD digits. */
module Encoding {
  import opened Arith
  import opened Declet
  import opened Canonicalize

  /* ---- Digits of a number in any base ---- */

  function DigitAt(b: nat, v: nat, k: nat): (d: nat)
    requires b > 1
    ensures d < b
  {
    v / Pow(b, k) % b
  }

  /** Digits below n do not depend on what lies above. */
  lemma DigitBelow(b: nat, hi: nat, low: nat, n: nat, k: nat)
    requires b > 1 && k < n
    ensures hi * Pow(b, n) + low >= 0 && DigitAt(b, hi * Pow(b, n) + low, k) == DigitAt(b, low, k)
  {
    hide Pow;
    PowSplit(b, n, k);
    PowAdd(b, 1, n - k - 1);
    PowOne(b);
    var p, q := Pow(b, k), Pow(b, n - k - 1);
    MulMono(0, hi, Pow(b, n));
    HigherDigits(hi, b, q, p, low);
  }

  lemma PowOne(b: nat)
    requires b > 0
    ensures Pow(b, 1) == b && Pow(b, 0) == 1
  {}

  lemma HigherDigits(hi: nat, b: nat, q: nat, p: nat, low: nat)
    requires p > 0 && b > 0
    ensures (hi * (p * (b * q)) + low) / p % b == low / p % b
  {
    DivBounds(low, p);
    QuotientNat(low, p);
    var m := hi * q;
    assert hi * (p * (b * q)) == m * b * p by { HigherArith(hi, b, q, p); }
    assert (m * b + low / p) * p == m * b * p + low / p * p;
    MulMono(0, hi, q);
    MulMono(0, m, b);
    DivModUnique(hi * (p * (b * q)) + low, p, m * b + low / p, low % p);
    ModMultiple(m, low / p, b);
  }

  lemma HigherArith(hi: nat, b: nat, q: nat, p: nat)
    ensures hi * (p * (b * q)) == hi * q * b * p
  {
    MulAssoc(hi, q, b);
    assert q * b == b * q;
    MulAssoc(hi, b * q, p);
    assert b * q * p == p * (b * q);
  }

  /** The digit on top of a number that is short of it. */
  lemma DigitOnTop(b: nat, c: nat, low: nat, n: nat)
    requires b > 1 && c < b && low < Pow(b, n)
    ensures c * Pow(b, n) + low >= 0 && DigitAt(b, c * Pow(b, n) + low, n) == c
    ensures c * Pow(b, n) + low < Pow(b, n + 1)
  {
    var p := Pow(b, n);
    assert Pow(b, n + 1) == b * p;
    hide Pow;
    MulMono(0, c, p);
    MulMono(c + 1, b, p);
    assert (c + 1) * p == c * p + p;
    DivModUnique(c * p + low, p, c, low);
    DivModUnique(c, b, 0, c);
  }

  /* ---- The coefficient continuation ---- */

  function Bin(t: Triple): (n: nat)
    requires AreThree(t)
    ensures n < 1000
  {
    t.d2 * 100 + t.d1 * 10 + t.d0
  }

  lemma ThreeParts(n: nat)
    requires n < 1000
    ensures n / 100 <= 9 && n == n / 100 * 100 + n / 10 % 10 * 10 + n % 10
  {
    DivLt(n, 100, 10);
    DivBounds(n, 100);
    NestedDivision(n, 10, 10);
  }

  function Three(n: nat): (t: Triple)
    requires n < 1000
    ensures AreThree(t) && Bin(t) == n
  {
    ThreeParts(n);
    Triple(n / 100, n / 10 % 10, n % 10)
  }

  lemma ThreeBin(t: Triple)
    requires AreThree(t)
    ensures Three(Bin(t)) == t
  {
    var n := Bin(t);
    DivModUnique(n, 100, t.d2, t.d1 * 10 + t.d0);
    DivModUnique(n, 10, t.d2 * 10 + t.d1, t.d0);
    DivModUnique(t.d2 * 10 + t.d1, 10, t.d2, t.d1);
  }

  /** What DPD2BIN makes of a declet. */
  function FromDeclet(d: nat): (n: nat)
    ensures n < 1000
  {
    Bin(Unpack(d))
  }

  /** BIN2DPD */
  function ToDeclet(n: nat): (d: nat)
    requires n < 1000
    ensures d < 1024
  {
    Pack(Three(n))
  }

  lemma DecletRoundTrip(n: nat)
    requires n < 1000
    ensures FromDeclet(ToDeclet(n)) == n
  {
    hide Pack, Unpack;
  }

  lemma DecletCanonical(d: nat)
    requires d < 1024
    ensures ToDeclet(FromDeclet(d)) == Canonical(d)
  {
    hide Pack, Unpack, Canonical;
    ThreeBin(Unpack(d));
    CanonicalIs(d);
  }

  /** The n low declets of v as a number below 1000^n. */
  function ContValue(v: nat, n: nat): nat {
    if n == 0 then 0 else
      MulMono(0, FromDeclet(DecletAt(v, n - 1)), Pow(1000, n - 1));
      ContValue(v, n - 1) + FromDeclet(DecletAt(v, n - 1)) * Pow(1000, n - 1)
  }

  /** The n declets of a number. */
  function PackCont(c: nat, n: nat): nat {
    if n == 0 then 0 else
      MulMono(0, ToDeclet(DigitAt(1000, c, n - 1)), Pow(1024, n - 1));
      PackCont(c, n - 1) + ToDeclet(DigitAt(1000, c, n - 1)) * Pow(1024, n - 1)
  }

  lemma Nothing(c: nat, v: nat)
    ensures ContValue(v, 0) == 0 && PackCont(c, 0) == 0 && ReplacedLow(v, 0, Canonical) == 0
    ensures Pow(1000, 0) == 1 && Pow(1024, 0) == 1 && c % Pow(1000, 0) == 0
  {}

  lemma ContNext(v: nat, n: nat)
    ensures FromDeclet(DecletAt(v, n)) < 1000 && DecletAt(v, n) < 1024
    ensures ContValue(v, n + 1) == FromDeclet(DecletAt(v, n)) * Pow(1000, n) + ContValue(v, n)
  {
    hide FromDeclet, DecletAt, Pow;
  }

  lemma PackNext(c: nat, n: nat)
    ensures DigitAt(1000, c, n) < 1000 && ToDeclet(DigitAt(1000, c, n)) < 1024
    ensures PackCont(c, n + 1) == ToDeclet(DigitAt(1000, c, n)) * Pow(1024, n) + PackCont(c, n)
  {
    hide ToDeclet, DigitAt, Pow;
  }

  lemma ReplacedNext(v: nat, n: nat)
    ensures ReplacedLow(v, n + 1, Canonical) == Canonical(DecletAt(v, n)) * Pow(1024, n) + ReplacedLow(v, n, Canonical)
  {
    hide Canonical, DecletAt, Pow;
  }

  lemma {:induction false} ContBound(v: nat, n: nat)
    ensures ContValue(v, n) < Pow(1000, n)
  {
    hide *;
    Nothing(v, v);
    if n > 0 {
      ContBound(v, n - 1);
      ContNext(v, n - 1);
      DigitOnTop(1000, FromDeclet(DecletAt(v, n - 1)), ContValue(v, n - 1), n - 1);
    }
  }

  /** Declet k from the right holds the digits 3k, 3k+1 and 3k+2 from the right of the number. */
  lemma {:induction false} DigitsOfCont(v: nat, n: nat, k: nat)
    requires k < n
    ensures var t := Unpack(v / Pow(1024, k) % 1024);
      ContValue(v, n) / Pow(1000, k) % 1000 == 100 * t.d2 + 10 * t.d1 + t.d0
  {
    DecletIsNumber(v, k);
    hide Pow, Unpack, DecletAt, FromDeclet, ContValue;
    ContNext(v, n - 1);
    ContBound(v, n - 1);
    var x := FromDeclet(DecletAt(v, n - 1));
    assert ContValue(v, n) == x * Pow(1000, n - 1) + ContValue(v, n - 1);
    if k == n - 1 {
      DigitOnTop(1000, x, ContValue(v, k), k);
    } else {
      DigitBelow(1000, x, ContValue(v, n - 1), n - 1, k);
      DigitsOfCont(v, n - 1, k);
    }
  }

  lemma DecletIsNumber(v: nat, k: nat)
    ensures var t := Unpack(v / Pow(1024, k) % 1024); FromDeclet(DecletAt(v, k)) == 100 * t.d2 + 10 * t.d1 + t.d0
  {
    hide Pow, Unpack;
  }

  lemma {:induction false} PackBound(c: nat, n: nat)
    ensures PackCont(c, n) < Pow(1024, n)
  {
    hide *;
    Nothing(c, c);
    if n > 0 {
      PackBound(c, n - 1);
      PackNext(c, n - 1);
      DigitOnTop(1024, ToDeclet(DigitAt(1000, c, n - 1)), PackCont(c, n - 1), n - 1);
    }
  }

  /** Only the declets matter. */
  lemma {:induction false} ContSame(v: nat, w: nat, n: nat)
    requires forall k: nat :: k < n ==> DecletAt(v, k) == DecletAt(w, k)
    ensures ContValue(v, n) == ContValue(w, n)
  {
    hide FromDeclet, DecletAt, Pow;
    if n > 0 { ContSame(v, w, n - 1); }
  }

  /** Only the digits matter. */
  lemma {:induction false} PackSame(c: nat, d: nat, n: nat)
    requires forall k: nat :: k < n ==> DigitAt(1000, c, k) == DigitAt(1000, d, k)
    ensures PackCont(c, n) == PackCont(d, n)
  {
    hide ToDeclet, DigitAt, Pow;
    if n > 0 { PackSame(c, d, n - 1); }
  }

  lemma ContOfSum(hi: nat, low: nat, n: nat, k: nat)
    requires k <= n
    ensures hi * Pow(1024, n) + low >= 0 && ContValue(hi * Pow(1024, n) + low, k) == ContValue(low, k)
  {
    hide Pow, ContValue, DigitAt;
    MulMono(0, hi, Pow(1024, n));
    var v := hi * Pow(1024, n) + low;
    forall i: nat | i < k ensures DecletAt(v, i) == DecletAt(low, i) {
      DigitBelow(1024, hi, low, n, i);
      DecletIsDigit(v, i);
      DecletIsDigit(low, i);
    }
    ContSame(v, low, k);
  }

  lemma DecletIsDigit(v: nat, k: nat)
    ensures DecletAt(v, k) == DigitAt(1024, v, k)
  {}

  lemma PackOfSum(hi: nat, low: nat, n: nat, k: nat)
    requires k <= n
    ensures hi * Pow(1000, n) + low >= 0 && PackCont(hi * Pow(1000, n) + low, k) == PackCont(low, k)
  {
    hide Pow, PackCont, DigitAt;
    MulMono(0, hi, Pow(1000, n));
    var v := hi * Pow(1000, n) + low;
    forall i: nat | i < k ensures DigitAt(1000, v, i) == DigitAt(1000, low, i) {
      DigitBelow(1000, hi, low, n, i);
    }
    PackSame(v, low, k);
  }

  /** Packing and unpacking returns the number's last 3n digits. */
  lemma {:induction false} ContOfPack(c: nat, n: nat)
    ensures ContValue(PackCont(c, n), n) == c % Pow(1000, n)
  {
    hide *;
    Nothing(c, PackCont(c, 0));
    if n > 0 {
      PackNext(c, n - 1);
      var d, low := ToDeclet(DigitAt(1000, c, n - 1)), PackCont(c, n - 1);
      assert DecletAt(PackCont(c, n), n - 1) == d by {
        PackBound(c, n - 1);
        DigitOnTop(1024, d, low, n - 1);
        DecletIsDigit(PackCont(c, n), n - 1);
      }
      ContNext(PackCont(c, n), n - 1);
      ContOfSum(d, low, n - 1, n - 1);
      ContOfPack(c, n - 1);
      DecletRoundTrip(DigitAt(1000, c, n - 1));
      OneMoreDigit(1000, c, n - 1);
    }
  }

  lemma OneMoreDigit(b: nat, c: nat, n: nat)
    requires b > 1
    ensures c % Pow(b, n + 1) == c % Pow(b, n) + DigitAt(b, c, n) * Pow(b, n)
  {
    var p := Pow(b, n);
    assert Pow(b, n + 1) == b * p == p * b;
    hide Pow;
    NestedDivision(c, p, b);
  }

  /** Unpacking and packing makes the declets canonical. */
  lemma {:induction false} PackOfCont(v: nat, n: nat)
    ensures PackCont(ContValue(v, n), n) == ReplacedLow(v, n, Canonical)
  {
    hide *;
    Nothing(ContValue(v, 0), v);
    if n > 0 {
      ContNext(v, n - 1);
      var x := FromDeclet(DecletAt(v, n - 1));
      var low := ContValue(v, n - 1);
      ContBound(v, n - 1);
      PackOfCont(v, n - 1);
      PackNext(ContValue(v, n), n - 1);
      PackOfSum(x, low, n - 1, n - 1);
      DigitOnTop(1000, x, low, n - 1);
      DecletCanonical(DecletAt(v, n - 1));
      ReplacedNext(v, n - 1);
    }
  }
}
