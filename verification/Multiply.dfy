/** decFiniteMultiply: the exact product of two coefficients, in base 10^9 with lazy carries, in a
    64-bit build and in a build with nothing wider than 32 bits. */
module Multiply {
  import opened Arith
  import opened Digits
  import opened Rounding
  import opened Context
  import opened BillBcd
  import opened Finalizer

  const MAGIC: nat := 2305843009     // 2^61 / 10^9

  function Wrap32(x: int): nat { x % TWO32 }

  function Wrap64(x: int): nat { x % TWO64 }

  /* ---- The quotient estimate of Clark and Cowlishaw ---- */

  /** x = lo + est*10^9 for a column x below 2*10^18 (A=29, B=32) or, for a quad, 4*10^18
      (A=30, B=31), from one 32-bit multiplication and one or two corrections. */
  method Split64(x: nat, quad: bool) returns (lo: nat, est: nat)
    requires x < (if quad then 4 else 2) * 1_000_000_000_000_000_000
    ensures lo < BILLION && x == est * BILLION + lo
  {
    if quad {
      var hop := Wrap32(x / 0x4000_0000);
      est := Wrap32(Wrap64(hop * MAGIC) / 0x8000_0000);
      EstimateQuad(x, hop, est);
    } else {
      var hop := Wrap32(x / 0x2000_0000);
      est := Wrap32(Wrap64(hop * MAGIC) / TWO32);
      EstimateDouble(x, hop, est);
    }
    lo := Wrap32(x - est * BILLION);
    if lo >= BILLION {
      lo, est := lo - BILLION, est + 1;
      if quad && lo >= BILLION {
        lo, est := lo - BILLION, est + 1;
      }
    }
  }

  /** For a double the estimate is low by at most one. */
  lemma EstimateDouble(x: nat, hop: nat, est: nat)
    requires x < 2_000_000_000_000_000_000
    requires hop == Wrap32(x / 0x2000_0000) && est == Wrap32(Wrap64(hop * MAGIC) / TWO32)
    ensures hop == x / 0x2000_0000 && est == hop * MAGIC / TWO32
    ensures 0 <= x - est * BILLION < 2 * BILLION && Wrap32(x - est * BILLION) == x - est * BILLION
  {}

  /** For a quad the estimate is low by at most two. */
  lemma EstimateQuad(x: nat, hop: nat, est: nat)
    requires x < 4_000_000_000_000_000_000
    requires hop == Wrap32(x / 0x4000_0000) && est == Wrap32(Wrap64(hop * MAGIC) / 0x8000_0000)
    ensures hop == x / 0x4000_0000 && est == hop * MAGIC / 0x8000_0000
    ensures 0 <= x - est * BILLION < 3 * BILLION && Wrap32(x - est * BILLION) == x - est * BILLION
  {}

  /** The high word of a product from its four half products. */
  function HighOfHalves(a: nat, b: nat, c: nat, d: nat): nat {
    var t := Wrap32(b + Wrap32(a) / 0x1_0000);
    var w1, w2 := t % 0x1_0000, t / 0x1_0000;
    var w3 := Wrap32(c + w1);
    Wrap32(d + w2 + w3 / 0x1_0000)
  }

  /** LONGMUL32HI: the high word of a 32 by 32 bit product, from 16-bit halves. */
  function LongMul32Hi(u: nat, v: nat): nat {
    var u0, u1, v0, v1 := u % 0x1_0000, u / 0x1_0000, v % 0x1_0000, v / 0x1_0000;
    HighOfHalves(u0 * v0, u1 * v0, u0 * v1, u1 * v1)
  }

  /** No step of LONGMUL32HI loses a carry: it is the exact high word. */
  lemma LongMul32HiExact(u: nat, v: nat)
    requires u < TWO32 && v < TWO32
    ensures LongMul32Hi(u, v) == u * v / TWO32
    ensures LongMul32Hi(u, v) * TWO32 + Wrap32(u * v) == u * v
  {
    hide Wrap32, HighOfHalves;
    HalvesOf(u, v);
    var u0, u1, v0, v1 := u % 0x1_0000, u / 0x1_0000, v % 0x1_0000, v / 0x1_0000;
    CarryHalves(u0 * v0, u1 * v0, u0 * v1, u1 * v1, u * v);
  }

  /** The carries between the four half products never leave their words. */
  lemma CarryHalves(a: nat, b: nat, c: nat, d: nat, x: nat)
    requires a <= 0xFFFE_0001 && b <= 0xFFFE_0001 && c <= 0xFFFE_0001 && d <= 0xFFFE_0001
    requires x == a + b * 0x1_0000 + c * 0x1_0000 + d * 0x1_0000 * 0x1_0000
    ensures HighOfHalves(a, b, c, d) == x / TWO32 && HighOfHalves(a, b, c, d) * TWO32 + Wrap32(x) == x
  {
    var t := b + a / 0x1_0000;
    assert Wrap32(b + Wrap32(a) / 0x1_0000) == t;
    var w3 := c + t % 0x1_0000;
    assert Wrap32(w3) == w3;
    var hi := d + t / 0x1_0000 + w3 / 0x1_0000;
    var low := (w3 % 0x1_0000) * 0x1_0000 + a % 0x1_0000;
    assert x == hi * TWO32 + low && low < TWO32;
    DivModUnique(x, TWO32, hi, low);
    assert hi < TWO32 by { assert x < TWO64; }
  }

  lemma HalvesOf(u: nat, v: nat)
    requires u < TWO32 && v < TWO32
    ensures var u0, u1, v0, v1 := u % 0x1_0000, u / 0x1_0000, v % 0x1_0000, v / 0x1_0000;
      && u0 * v0 <= 0xFFFE_0001 && u1 * v0 <= 0xFFFE_0001 && u0 * v1 <= 0xFFFE_0001 && u1 * v1 <= 0xFFFE_0001
      && u * v == u0 * v0 + (u1 * v0) * 0x1_0000 + (u0 * v1) * 0x1_0000 + (u1 * v1) * 0x1_0000 * 0x1_0000
  {
    var u0, u1, v0, v1 := u % 0x1_0000, u / 0x1_0000, v % 0x1_0000, v / 0x1_0000;
    HalfProduct(u0, v0); HalfProduct(u1, v0); HalfProduct(u0, v1); HalfProduct(u1, v1);
    Halves(u0, u1, v0, v1, 0x1_0000);
  }

  lemma HalfProduct(x: nat, y: nat)
    requires x < 0x1_0000 && y < 0x1_0000
    ensures x * y <= 0xFFFE_0001
  {
    MulMono(x, 0xFFFF, y);
  }

  lemma Halves(u0: nat, u1: nat, v0: nat, v1: nat, h: nat)
    ensures (u1 * h + u0) * (v1 * h + v0) == u0 * v0 + (u1 * v0) * h + (u0 * v1) * h + (u1 * v1) * h * h
  {
    var x := u1 * h + u0;
    assert x * (v1 * h + v0) == x * (v1 * h) + x * v0;
    assert x * v0 == (u1 * v0) * h + u0 * v0;
    assert x * (v1 * h) == (x * v1) * h;
    assert x * v1 == (u1 * v1) * h + u0 * v1;
  }

  method Estimate32Double(hi: nat, low: nat) returns (estlo: nat)
    requires low < TWO32 && hi * TWO32 + low < 2_000_000_000_000_000_000
    ensures estlo == Wrap32(Wrap64(Wrap32((hi * TWO32 + low) / 0x2000_0000) * MAGIC) / TWO32)
  {
    assert hi < 0x2000_0000;
    ShiftedPair29(hi, low);
    HighWord(Wrap32((hi * TWO32 + low) / 0x2000_0000));
    hide LongMul32Hi, Wrap32, Wrap64;
    var hop := Wrap32(Wrap32(hi * 8) + low / 0x2000_0000);
    LongMul32HiExact(hop, MAGIC);
    estlo := LongMul32Hi(hop, MAGIC);
  }

  method Estimate32Quad(hi: nat, low: nat) returns (estlo: nat)
    requires low < TWO32 && hi * TWO32 + low < 4_000_000_000_000_000_000
    ensures estlo == Wrap32(Wrap64(Wrap32((hi * TWO32 + low) / 0x4000_0000) * MAGIC) / 0x8000_0000)
  {
    assert hi < 0x4000_0000;
    ShiftedPair30(hi, low);
    HighWord(Wrap32((hi * TWO32 + low) / 0x4000_0000));
    hide LongMul32Hi, Wrap32, Wrap64;
    var hop := Wrap32(Wrap32(hi * 4) + low / 0x4000_0000);
    LongMul32HiExact(hop, MAGIC);
    var esthi := LongMul32Hi(hop, MAGIC);
    estlo := Wrap32(hop * MAGIC);
    estlo := Wrap32(Wrap32(esthi * 2) + estlo / 0x8000_0000);
    TopBit(hop * MAGIC, esthi);
  }

  /** Shifting a pair of words right by 29 or 30 bits, word by word. */
  lemma ShiftedPair29(hi: nat, low: nat)
    requires low < TWO32 && hi < 0x2000_0000
    ensures Wrap32(Wrap32(hi * 8) + low / 0x2000_0000) == Wrap32((hi * TWO32 + low) / 0x2000_0000)
  {
    DivModUnique(hi * TWO32 + low, 0x2000_0000, hi * 8 + low / 0x2000_0000, low % 0x2000_0000);
  }

  lemma ShiftedPair30(hi: nat, low: nat)
    requires low < TWO32 && hi < 0x4000_0000
    ensures Wrap32(Wrap32(hi * 4) + low / 0x4000_0000) == Wrap32((hi * TWO32 + low) / 0x4000_0000)
  {
    DivModUnique(hi * TWO32 + low, 0x4000_0000, hi * 4 + low / 0x4000_0000, low % 0x4000_0000);
  }

  /** Shifting a product right by 31 bits, from its high word and the top bit of its low word. */
  lemma TopBit(x: nat, hi: nat)
    requires hi == x / TWO32 && x < TWO64
    ensures Wrap32(Wrap32(hi * 2) + Wrap32(x) / 0x8000_0000) == Wrap32(Wrap64(x) / 0x8000_0000)
  {
    ShiftedProduct(x, hi);
    var m := Wrap32(x) / 0x8000_0000;
    WrapSum(hi * 2, m);
  }

  lemma ShiftedProduct(x: nat, hi: nat)
    requires hi == x / TWO32 && x < TWO64
    ensures Wrap64(x) / 0x8000_0000 == hi * 2 + Wrap32(x) / 0x8000_0000
  {}

  lemma WrapSum(x: nat, y: nat)
    ensures Wrap32(Wrap32(x) + y) == Wrap32(x + y)
  {
    var q, r := x / TWO32, x % TWO32;
    var q', r' := (r + y) / TWO32, (r + y) % TWO32;
    DivModUnique(x + y, TWO32, q + q', r');
  }

  lemma HighWord(hop: nat)
    requires hop < TWO32
    ensures hop * MAGIC < TWO64
    ensures Wrap32(Wrap64(hop * MAGIC) / TWO32) == hop * MAGIC / TWO32
  {
    var x := hop * MAGIC;
    assert x / TWO32 < TWO32;
  }

  /** The 32-bit build's split of the column hi:lo; the same estimate from two words. */
  method Split32(hi: nat, low: nat, quad: bool) returns (lo: nat, estlo: nat)
    requires low < TWO32
    requires hi * TWO32 + low < (if quad then 4 else 2) * 1_000_000_000_000_000_000
    ensures lo < BILLION && hi * TWO32 + low == estlo * BILLION + lo && estlo < TWO32
  {
    hide Wrap32, Wrap64;
    ghost var x := hi * TWO32 + low;
    if quad {
      estlo := Estimate32Quad(hi, low);
      EstimateQuad(x, Wrap32(x / 0x4000_0000), estlo);
    } else {
      estlo := Estimate32Double(hi, low);
      EstimateDouble(x, Wrap32(x / 0x2000_0000), estlo);
    }
    LowWord(hi, low, estlo);
    lo := Wrap32(low - Wrap32(estlo * BILLION));
    if lo >= BILLION {
      lo, estlo := lo - BILLION, estlo + 1;
    }
    if quad && lo >= BILLION {
      lo, estlo := lo - BILLION, estlo + 1;
    }
  }

  /** Only the low words matter to a difference below 2^32. */
  lemma LowWord(hi: nat, low: nat, est: nat)
    ensures Wrap32(low - Wrap32(est * BILLION)) == Wrap32(hi * TWO32 + low - est * BILLION)
  {
    var d := low - Wrap32(est * BILLION);
    var k := hi - est * BILLION / TWO32;
    assert hi * TWO32 + low - est * BILLION == d + k * TWO32;
    var q, r := d / TWO32, d % TWO32;
    DivModUnique(d + k * TWO32, TWO32, q + k, r);
  }

  /* ---- The product by columns ---- */

  /** The largest product of two units. */
  const UNITPRODUCT: nat := 999_999_999 * 999_999_999

  lemma UnitProduct(x: nat, y: nat)
    requires x < BILLION && y < BILLION
    ensures x * y <= UNITPRODUCT
  {
    MulMono(x, 999_999_999, y);
    MulMono(y, 999_999_999, 999_999_999);
  }

  /** The first j terms of u * l, shifted up by at columns. */
  ghost function Row(u: nat, l: seq<nat>, j: nat, at: nat): nat
    requires j <= |l|
  {
    (u * Units(BILLION, l[..j])) * Pow(BILLION, at)
  }

  lemma RowZero(u: nat, l: seq<nat>, at: nat)
    ensures Row(u, l, 0, at) == 0
  {
    assert l[..0] == [];
  }

  /** One partial product more in a row: the value grows by that term. */
  lemma RowTerm(u: nat, l: seq<nat>, j: nat, at: nat)
    requires j < |l|
    ensures Row(u, l, j + 1, at) == Row(u, l, j, at) + (u * l[j]) * Pow(BILLION, at + j)
  {
    hide Units, Pow;
    UnitsNext(BILLION, l, j);
    PowAdd(BILLION, j, at);
    Distribute(u, Units(BILLION, l[..j]), l[j], Pow(BILLION, j), Pow(BILLION, at));
  }

  lemma Distribute(u: nat, x: nat, y: nat, p: nat, q: nat)
    ensures (u * (x + y * p)) * q == (u * x) * q + (u * y) * (p * q)
  {
    assert u * (x + y * p) == u * x + u * (y * p);
    assert u * (y * p) == (u * y) * p;
    assert ((u * y) * p) * q == (u * y) * (p * q);
  }

  /** Adds u * l, shifted up by at columns, into the lazy accumulator. */
  method AddRow64(accl: array<nat>, l: array<nat>, u: nat, at: nat, ghost bound: nat)
    requires accl != l && accl.Length == 2 * l.Length && at < l.Length && AreUnits(BILLION, l[..]) && u < BILLION
    requires forall k :: 0 <= k < accl.Length ==> accl[k] <= bound
    requires bound + UNITPRODUCT < TWO64
    modifies accl
    ensures forall k :: 0 <= k < accl.Length ==> accl[k] <= bound + UNITPRODUCT
    ensures Units(BILLION, accl[..]) == old(Units(BILLION, accl[..])) + Row(u, l[..], l.Length, at)
  {
    hide Units, Pow, Row;
    ghost var before, ll := accl[..], l[..];
    var j := 0;
    RowZero(u, ll, at);
    while j < l.Length
      invariant j <= l.Length && l[..] == ll
      invariant forall k :: 0 <= k < accl.Length ==> accl[k] <= if at <= k < at + j then bound + UNITPRODUCT else bound
      invariant Units(BILLION, accl[..]) == Units(BILLION, before) + Row(u, ll, j, at)
    {
      AddProduct64(accl, u, l[j], at + j);
      RowTerm(u, ll, j, at);
      j := j + 1;
    }
  }

  /** One exact product added to column k. */
  method AddProduct64(accl: array<nat>, u: nat, v: nat, k: nat)
    requires k < accl.Length && u < BILLION && v < BILLION && accl[k] + UNITPRODUCT < TWO64
    modifies accl
    ensures forall i :: 0 <= i < accl.Length && i != k ==> accl[i] == old(accl[i])
    ensures accl[k] <= old(accl[k]) + UNITPRODUCT
    ensures Units(BILLION, accl[..]) == old(Units(BILLION, accl[..])) + (u * v) * Pow(BILLION, k)
  {
    hide Units, Pow;
    ghost var s := accl[..];
    UnitProduct(u, v);
    var product := u * v;
    UnitsAdd(BILLION, s, k, product);
    accl[k] := Wrap64(accl[k] + Wrap64(product));
    assert accl[..] == s[k := s[k] + product];
  }

  /** All the partial products, without resolving a single carry. */
  method Columns64(l: array<nat>, r: array<nat>) returns (accl: array<nat>)
    requires l.Length == r.Length && 1 <= l.Length <= 4
    requires AreUnits(BILLION, l[..]) && AreUnits(BILLION, r[..])
    ensures fresh(accl) && accl.Length == 2 * l.Length
    ensures forall k :: 0 <= k < accl.Length ==> accl[k] <= l.Length * UNITPRODUCT
    ensures Units(BILLION, accl[..]) == Units(BILLION, l[..]) * Units(BILLION, r[..])
  {
    hide Units, Pow, Row;
    var n := l.Length;
    ghost var ll, rr := l[..], r[..];
    accl := new nat[2 * n](_ => 0);
    UnitsZeros(BILLION, accl[..]);
    UnitsZeros(BILLION, rr[..0]);
    var ui := 0;
    while ui < n
      invariant ui <= n && l[..] == ll && r[..] == rr
      invariant forall k :: 0 <= k < accl.Length ==> accl[k] <= ui * UNITPRODUCT
      invariant Units(BILLION, accl[..]) == Units(BILLION, ll) * Units(BILLION, rr[..ui])
    {
      NextRow(ll, rr, ui);
      if r[ui] != 0 {
        AddRow64(accl, l, r[ui], ui, ui * UNITPRODUCT);
      }
      ui := ui + 1;
    }
    assert rr[..ui] == rr;
  }

  lemma NextRow(l: seq<nat>, r: seq<nat>, i: nat)
    requires i < |r|
    ensures Units(BILLION, l) * Units(BILLION, r[..i + 1])
         == Units(BILLION, l) * Units(BILLION, r[..i]) + Row(r[i], l, |l|, i)
    ensures r[i] == 0 ==> Row(r[i], l, |l|, i) == 0
  {
    hide Units, Pow;
    UnitsNext(BILLION, r, i);
    assert l[..|l|] == l;
    MulOut(Units(BILLION, l), Units(BILLION, r[..i]), r[i], Pow(BILLION, i));
  }

  lemma MulOut(x: nat, y: nat, u: nat, p: nat)
    ensures x * (y + u * p) == x * y + (u * x) * p
    ensures u == 0 ==> (u * x) * p == 0
  {
    assert x * (u * p) == (u * x) * p;
  }

  /** Resolved units below, lazy columns above. */
  ghost function Mixed(done: seq<nat>, rest: seq<nat>): nat {
    Units(BILLION, done) + Units(BILLION, rest) * Pow(BILLION, |done|)
  }

  lemma MixedAt(done: seq<nat>, rest: seq<nat>)
    ensures |done| == 0 ==> Mixed(done, rest) == Units(BILLION, rest)
    ensures |rest| == 0 ==> Mixed(done, rest) == Units(BILLION, done)
  {}

  /** Resolving one column: its remainder stays, its quotient moves up. */
  lemma MixedStep(done: seq<nat>, rest: seq<nat>, lo: nat, est: nat)
    requires |rest| > 0 && rest[0] == est * BILLION + lo
    ensures |rest| > 1 ==> Mixed(done + [lo], rest[1..][0 := rest[1] + est]) == Mixed(done, rest)
    ensures est == 0 ==> Mixed(done + [lo], rest[1..]) == Mixed(done, rest)
  {
    hide Units;
    UnitsAppend(BILLION, done, lo);
    UnitsFirst(BILLION, rest);
    var t := Pow(BILLION, |done|);
    assert Pow(BILLION, |done| + 1) == BILLION * t;
    Regroup(est, lo, Units(BILLION, rest[1..]), t);
    if |rest| > 1 {
      UnitsAdd(BILLION, rest[1..], 0, est);
    }
  }

  lemma Regroup(est: nat, lo: nat, rest: nat, t: nat)
    ensures (est * BILLION + lo + rest * BILLION) * t == lo * t + (rest + est) * (BILLION * t)
  {}

  /** The top column always fits: it never needs splitting. */
  lemma LastColumn(done: seq<nat>, x: nat)
    requires Mixed(done, [x]) < Pow(BILLION, |done| + 1)
    ensures x < BILLION
  {
    assert [x][..0] == [];
    if x >= BILLION { MulMono(BILLION, x, Pow(BILLION, |done|)); }
  }

  lemma EstimateSmall(x: nat, est: nat, n: nat)
    requires est * BILLION <= x <= n * UNITPRODUCT + n * BILLION && 1 <= n <= 4
    ensures est <= n * BILLION
  {}

  /** The carries are resolved column by column; each column's estimate goes to the next. */
  method Resolve64(accl: array<nat>, n: nat, ghost product: nat) returns (acc: array<nat>)
    requires accl.Length == 2 * n && 1 <= n <= 4
    requires forall k :: 0 <= k < accl.Length ==> accl[k] <= n * UNITPRODUCT
    requires Units(BILLION, accl[..]) == product < Pow(BILLION, 2 * n)
    modifies accl
    ensures fresh(acc) && acc[..] == BillUnits(product, 2 * n)
  {
    hide Units, Pow, BillUnits, Mixed;
    acc := new nat[2 * n];
    var p := 0;
    assert accl[0..] == accl[..];
    MixedAt(acc[..0], accl[0..]);
    while p < 2 * n
      invariant p <= 2 * n
      invariant AreUnits(BILLION, acc[..p])
      invariant forall k :: p <= k < accl.Length ==> accl[k] <= n * UNITPRODUCT + if k == p then n * BILLION else 0
      invariant Mixed(acc[..p], accl[p..]) == product
    {
      ResolveColumn64(accl, acc, p, n, product);
      p := p + 1;
    }
    MixedAt(acc[..p], accl[p..]);
    assert acc[..p] == acc[..];
    BillUnitsAre(acc[..], product);
  }

  method ResolveColumn64(accl: array<nat>, acc: array<nat>, p: nat, n: nat, ghost product: nat)
    requires accl != acc && accl.Length == acc.Length == 2 * n && 1 <= n <= 4 && p < 2 * n
    requires AreUnits(BILLION, acc[..p]) && accl[p] <= n * UNITPRODUCT + n * BILLION
    requires p + 1 < 2 * n ==> accl[p + 1] <= n * UNITPRODUCT
    requires Mixed(acc[..p], accl[p..]) == product < Pow(BILLION, 2 * n)
    modifies accl, acc
    ensures AreUnits(BILLION, acc[..p + 1])
    ensures p + 1 < 2 * n ==> accl[p + 1] <= n * UNITPRODUCT + n * BILLION
    ensures forall k :: p + 1 < k < 2 * n ==> accl[k] == old(accl[k])
    ensures Mixed(acc[..p + 1], accl[p + 1..]) == product
  {
    hide Units, Pow, Mixed;
    ghost var done, rest := acc[..p], accl[p..];
    if accl[p] >= BILLION {
      if p + 1 == 2 * n {
        assert rest == [accl[p]];
        LastColumn(done, accl[p]);
      }
      var lo, est := Split64(accl[p], n > 2);
      EstimateSmall(accl[p], est, n);
      acc[p] := lo;
      accl[p + 1] := Wrap64(accl[p + 1] + est);
      MixedStep(done, rest, lo, est);
      assert accl[p + 1..] == rest[1..][0 := rest[1] + est];
    } else {
      acc[p] := Wrap32(accl[p]);
      MixedStep(done, rest, accl[p], 0);
      assert accl[p + 1..] == rest[1..];
    }
    assert acc[..p + 1] == done + [acc[p]];
  }

  /* ---- The 32-bit build: each column is a low word at k and a high word at m+k ---- */

  ghost function Columns(s: seq<nat>, m: nat): (c: seq<nat>)
    requires |s| == 2 * m
    ensures |c| == m && forall k :: 0 <= k < m ==> c[k] == s[k] + s[m + k] * TWO32
  {
    seq(m, k requires 0 <= k < m => s[k] + s[m + k] * TWO32)
  }

  ghost predicate AreWords(s: seq<nat>) {
    forall k :: 0 <= k < |s| ==> s[k] < TWO32
  }

  /** Accumulating a two-word addend with a manual carry adds it to the column. */
  lemma ColumnAdd(low: nat, high: nat, lo: nat, hi: nat)
    requires low < TWO32 && high < TWO32 && lo < TWO32
    requires low + high * TWO32 + lo + hi * TWO32 < TWO64
    ensures var low' := Wrap32(low + lo); var high' := Wrap32(high + hi + if low' < lo then 1 else 0);
      low' < TWO32 && high' < TWO32 && low' + high' * TWO32 == low + high * TWO32 + lo + hi * TWO32
  {
    var low' := Wrap32(low + lo);
    assert low + lo == low' + if low' < lo then TWO32 else 0;
  }

  lemma ColumnsUpdate(s: seq<nat>, m: nat, k: nat, low: nat, high: nat)
    requires |s| == 2 * m && k < m
    ensures Columns(s[k := low][m + k := high], m) == Columns(s, m)[k := low + high * TWO32]
  {}

  method AddRow32(acc: array<nat>, l: array<nat>, u: nat, at: nat, ghost bound: nat)
    requires acc != l && acc.Length == 4 * l.Length && at < l.Length && AreUnits(BILLION, l[..]) && u < BILLION
    requires AreWords(acc[..]) && forall k :: 0 <= k < 2 * l.Length ==> Columns(acc[..], 2 * l.Length)[k] <= bound
    requires bound + UNITPRODUCT < TWO64
    modifies acc
    ensures AreWords(acc[..])
    ensures forall k :: 0 <= k < 2 * l.Length ==> Columns(acc[..], 2 * l.Length)[k] <= bound + UNITPRODUCT
    ensures Units(BILLION, Columns(acc[..], 2 * l.Length))
         == old(Units(BILLION, Columns(acc[..], 2 * l.Length))) + Row(u, l[..], l.Length, at)
  {
    hide Units, Pow, Row, Columns;
    ghost var before, ll, m := Columns(acc[..], 2 * l.Length), l[..], 2 * l.Length;
    var j := 0;
    RowZero(u, ll, at);
    while j < l.Length
      invariant j <= l.Length && l[..] == ll
      invariant AreWords(acc[..])
      invariant forall k :: 0 <= k < m ==>
        Columns(acc[..], m)[k] <= if at <= k < at + j then bound + UNITPRODUCT else bound
      invariant Units(BILLION, Columns(acc[..], m)) == Units(BILLION, before) + Row(u, ll, j, at)
    {
      AddProduct32(acc, u, l[j], at + j);
      RowTerm(u, ll, j, at);
      j := j + 1;
    }
  }

  /** One exact 64-bit product added to column k. */
  method AddProduct32(acc: array<nat>, u: nat, v: nat, k: nat)
    requires acc.Length % 2 == 0 && k < acc.Length / 2 && AreWords(acc[..]) && u < BILLION && v < BILLION
    requires Columns(acc[..], acc.Length / 2)[k] + UNITPRODUCT < TWO64
    modifies acc
    ensures AreWords(acc[..])
    ensures var m := acc.Length / 2;
      && (forall i :: 0 <= i < m && i != k ==> Columns(acc[..], m)[i] == old(Columns(acc[..], m))[i])
      && Columns(acc[..], m)[k] <= old(Columns(acc[..], m))[k] + UNITPRODUCT
      && Units(BILLION, Columns(acc[..], m)) == old(Units(BILLION, Columns(acc[..], m))) + (u * v) * Pow(BILLION, k)
  {
    hide Units, Pow, LongMul32Hi, Columns, Wrap32;
    var m := acc.Length / 2;
    ghost var s := acc[..];
    UnitProduct(u, v);
    LongMul32HiExact(u, v);
    UnitsAdd(BILLION, Columns(s, m), k, u * v);
    var hi := LongMul32Hi(u, v);
    var lo := Wrap32(u * v);
    WrapBound(u * v);
    AddToColumn(acc, k, lo, hi);
  }

  lemma WrapBound(x: int)
    ensures Wrap32(x) < TWO32
  {}

  /** A two-word addend into column k, with the carry found by comparing. */
  method AddToColumn(acc: array<nat>, k: nat, lo: nat, hi: nat)
    requires acc.Length % 2 == 0 && k < acc.Length / 2 && AreWords(acc[..]) && lo < TWO32
    requires Columns(acc[..], acc.Length / 2)[k] + lo + hi * TWO32 < TWO64
    modifies acc
    ensures AreWords(acc[..])
    ensures Columns(acc[..], acc.Length / 2)
         == var c := old(Columns(acc[..], acc.Length / 2)); c[k := c[k] + lo + hi * TWO32]
    ensures forall i :: 0 <= i < acc.Length / 2 && i != k ==> acc[i] == old(acc[i])
  {
    hide Columns, Wrap32;
    var m := acc.Length / 2;
    ghost var s := acc[..];
    ColumnAdd(s[k], s[m + k], lo, hi);
    acc[k] := Wrap32(acc[k] + lo);
    acc[m + k] := Wrap32(acc[m + k] + hi + if acc[k] < lo then 1 else 0);
    ColumnsUpdate(s, m, k, acc[k], acc[m + k]);
    assert acc[..] == s[k := acc[k]][m + k := acc[m + k]];
  }

  lemma ZeroColumns(s: seq<nat>, m: nat)
    requires |s| == 2 * m && forall k :: 0 <= k < |s| ==> s[k] == 0
    ensures Units(BILLION, Columns(s, m)) == 0 && forall k :: 0 <= k < m ==> Columns(s, m)[k] == 0
  {
    UnitsZeros(BILLION, Columns(s, m));
  }

  method Columns32(l: array<nat>, r: array<nat>) returns (acc: array<nat>)
    requires l.Length == r.Length && 1 <= l.Length <= 4
    requires AreUnits(BILLION, l[..]) && AreUnits(BILLION, r[..])
    ensures fresh(acc) && acc.Length == 4 * l.Length && AreWords(acc[..])
    ensures forall k :: 0 <= k < 2 * l.Length ==> Columns(acc[..], 2 * l.Length)[k] <= l.Length * UNITPRODUCT
    ensures Units(BILLION, Columns(acc[..], 2 * l.Length)) == Units(BILLION, l[..]) * Units(BILLION, r[..])
  {
    hide Units, Pow, Row, Columns;
    var n := l.Length;
    ghost var ll, rr, m := l[..], r[..], 2 * n;
    acc := new nat[4 * n](_ => 0);
    ZeroColumns(acc[..], m);
    UnitsZeros(BILLION, rr[..0]);
    var ui := 0;
    while ui < n
      invariant ui <= n && l[..] == ll && r[..] == rr
      invariant AreWords(acc[..]) && forall k :: 0 <= k < m ==> Columns(acc[..], m)[k] <= ui * UNITPRODUCT
      invariant Units(BILLION, Columns(acc[..], m)) == Units(BILLION, ll) * Units(BILLION, rr[..ui])
    {
      NextRow(ll, rr, ui);
      AddRow32(acc, l, r[ui], ui, ui * UNITPRODUCT);
      ui := ui + 1;
    }
    assert rr[..ui] == rr;
  }

  /** Resolves every column but the last, word by word. */
  method Resolve32(acc: array<nat>, n: nat, ghost product: nat)
    requires acc.Length == 4 * n && 1 <= n <= 4 && AreWords(acc[..])
    requires forall k :: 0 <= k < 2 * n ==> Columns(acc[..], 2 * n)[k] <= n * UNITPRODUCT
    requires Units(BILLION, Columns(acc[..], 2 * n)) == product < Pow(BILLION, 2 * n)
    modifies acc
    ensures acc[..2 * n] == BillUnits(product, 2 * n)
  {
    hide Units, Pow, BillUnits, Mixed, Columns;
    var p := 0;
    ghost var m := 2 * n;
    assert Columns(acc[..], m)[0..] == Columns(acc[..], m);
    MixedAt(acc[..0], Columns(acc[..], m)[0..]);
    while p < 2 * n - 1
      invariant p <= 2 * n - 1
      invariant AreUnits(BILLION, acc[..p]) && AreWords(acc[..])
      invariant forall k :: p <= k < m ==> Columns(acc[..], m)[k] <= n * UNITPRODUCT + if k == p then n * BILLION else 0
      invariant Mixed(acc[..p], Columns(acc[..], m)[p..]) == product
    {
      ResolveColumn32(acc, p, n, product);
      p := p + 1;
    }
    ghost var rest := Columns(acc[..], m)[p..];
    assert rest == [rest[0]];
    LastColumn(acc[..p], rest[0]);
    LowWordOnly(acc[..], m, p);
    MixedStep(acc[..p], rest, acc[p], 0);
    assert acc[..p + 1] == acc[..p] + [acc[p]] == acc[..2 * n];
    MixedAt(acc[..p + 1], rest[1..]);
    BillUnitsAre(acc[..2 * n], product);
  }

  lemma LowWordOnly(s: seq<nat>, m: nat, p: nat)
    requires |s| == 2 * m && p < m && Columns(s, m)[p] < TWO32
    ensures Columns(s, m)[p] == s[p]
  {}

  method ResolveColumn32(acc: array<nat>, p: nat, n: nat, ghost product: nat)
    requires acc.Length == 4 * n && 1 <= n <= 4 && p + 1 < 2 * n && AreWords(acc[..]) && AreUnits(BILLION, acc[..p])
    requires Columns(acc[..], 2 * n)[p] <= n * UNITPRODUCT + n * BILLION
    requires Columns(acc[..], 2 * n)[p + 1] <= n * UNITPRODUCT
    requires Mixed(acc[..p], Columns(acc[..], 2 * n)[p..]) == product
    modifies acc
    ensures AreWords(acc[..]) && AreUnits(BILLION, acc[..p + 1])
    ensures Columns(acc[..], 2 * n)[p + 1] <= n * UNITPRODUCT + n * BILLION
    ensures forall k :: p + 1 < k < 2 * n ==> Columns(acc[..], 2 * n)[k] == old(Columns(acc[..], 2 * n))[k]
    ensures Mixed(acc[..p + 1], Columns(acc[..], 2 * n)[p + 1..]) == product
  {
    hide Units, Pow, Mixed, Columns;
    ghost var done, rest := acc[..p], Columns(acc[..], 2 * n)[p..];
    ColumnsAt(acc[..], 2 * n, p);
    var lo, estlo := Split32(acc[p + 2 * n], acc[p], n > 2);
    EstimateSmall(rest[0], estlo, n);
    MixedStep(done, rest, lo, estlo);
    PlaceAndCarry(acc, p, lo, estlo);
  }

  /** Places lo at p and adds the estimate to the next column, carrying into its high word. */
  method PlaceAndCarry(acc: array<nat>, p: nat, lo: nat, estlo: nat)
    requires acc.Length % 2 == 0 && p + 1 < acc.Length / 2 && AreWords(acc[..]) && lo < TWO32 && estlo < TWO32
    requires Columns(acc[..], acc.Length / 2)[p + 1] + estlo < TWO64
    modifies acc
    ensures AreWords(acc[..]) && acc[..p + 1] == old(acc[..p]) + [lo]
    ensures var rest := old(Columns(acc[..], acc.Length / 2)[p + 1..]);
      Columns(acc[..], acc.Length / 2)[p + 1..] == rest[0 := rest[0] + estlo]
  {
    hide Columns;
    ghost var m, s := acc.Length / 2, acc[..];
    acc[p] := lo;
    ColumnsUpdate(s, m, p, lo, s[m + p]);
    assert acc[..] == s[p := lo][m + p := s[m + p]];
    AddToColumn(acc, p + 1, estlo, 0);
  }

  lemma ColumnsAt(s: seq<nat>, m: nat, k: nat)
    requires |s| == 2 * m && k < m
    ensures Columns(s, m)[k] == s[m + k] * TWO32 + s[k]
  {}

  /* ---- decFiniteMultiply ---- */

  /** The base-billion product of two coefficients; both builds give the same units. */
  method ProductUnits(f: Format, x: nat, y: nat, use64: bool) returns (acc: array<nat>)
    requires f.Valid() && f.oplen <= 4 && x < Pow(10, f.p) && y < Pow(10, f.p)
    ensures fresh(acc) && acc.Length >= 2 * f.oplen
    ensures acc[..2 * f.oplen] == BillUnits(x * y, 2 * f.oplen)
  {
    hide Units, Pow, BillUnits, Columns;
    CoefficientFits(f, x);
    CoefficientFits(f, y);
    ProductFits(f, x, y);
    var bufl := LoadUnits(x, f.oplen);
    var bufr := LoadUnits(y, f.oplen);
    if use64 {
      var accl := Columns64(bufl, bufr);
      acc := Resolve64(accl, f.oplen, x * y);
      assert acc[..2 * f.oplen] == acc[..];
    } else {
      acc := Columns32(bufl, bufr);
      Resolve32(acc, f.oplen, x * y);
    }
  }

  lemma ProductFits(f: Format, x: nat, y: nat)
    requires f.Valid() && x < Pow(10, f.p) && y < Pow(10, f.p)
    ensures x * y < Pow(10, 2 * f.p) <= Pow(BILLION, 2 * f.oplen)
  {
    hide Pow;
    PowAdd(10, f.p, f.p);
    MulBound2(x, Pow(10, f.p), y, Pow(10, f.p));
    BillPow(2 * f.oplen);
    PowMono(10, 2 * f.p, 9 * (2 * f.oplen));
  }

  lemma MulBound2(x: nat, p: nat, y: nat, q: nat)
    requires x < p && y < q
    ensures x * y < p * q
  {
    MulMono(x, p - 1, y);
    MulStrict(y, q, p);
    assert (p - 1) * y == p * y - y;
  }

  /** Does the coefficient laid out from at to lsd fill all but the first nine of those digits? */
  ghost predicate Fills(c: nat, at: nat, lsd: nat) {
    lsd >= at + 9 ==> Pow(10, lsd - at - 8) <= c
  }

  /** The product's units as digits from bcd[at] on, without its known leading zeros: leading zero units
      are not laid out, so that the digits end within nine places of where a minimal layout would. */
  method LayOutProduct(f: Format, acc: array<nat>, ghost product: nat, bcd: array<nat>, at: nat)
    returns (msd: nat, lsd: nat)
    requires f.Valid() && acc.Length >= 2 * f.oplen && acc != bcd && at + 18 * f.oplen <= bcd.Length
    requires AreUnits(BILLION, acc[..2 * f.oplen]) && Units(BILLION, acc[..2 * f.oplen]) == product < Pow(10, 2 * f.p)
    modifies bcd
    ensures msd <= lsd < bcd.Length && AreDigits(bcd[msd..lsd + 1]) && Val(bcd[msd..lsd + 1]) == product
    ensures Fills(product, at, lsd)
  {
    hide Val, Units, Pow;
    var acclen := 2 * f.oplen;
    var pa := acclen - 1;
    msd := at;
    if acc[pa] != 0 {
      msd := at + (acclen * 9 - f.p * 2);
    } else {
      pa := pa - 1;
      while acc[pa] == 0 && pa != 0
        invariant 0 <= pa < acclen - 1
        invariant forall i :: pa < i < acclen ==> acc[i] == 0
        decreases pa
      {
        pa := pa - 1;
      }
    }
    TrimUnits(acc[..acclen], pa + 1);
    assert acc[..acclen][..pa + 1] == acc[0..pa + 1];
    TopUnit(acc[0..pa + 1]);
    LayOutUnits(acc, 0, pa + 1, bcd, at);
    ghost var all := bcd[at..at + 9 * (pa + 1)];
    lsd := at + 9 * (pa + 1) - 1;
    SkipLeading(all, msd - at, product);
    assert bcd[msd..lsd + 1] == all[msd - at..];
  }

  lemma TopUnit(s: seq<nat>)
    requires |s| > 0
    ensures s[|s| - 1] != 0 ==> Pow(10, 9 * (|s| - 1)) <= Units(BILLION, s)
  {
    hide Pow, Units;
    var n := |s| - 1;
    UnitsNext(BILLION, s, n);
    assert s[..n + 1] == s;
    BillPow(n);
    if s[n] != 0 { MulMono(1, s[n], Pow(BILLION, n)); }
  }

  /** decFiniteMultiply: the exact product of two finite numbers, laid out as digits in bcdacc from at on. */
  method FiniteMultiply(f: Format, l: Number, r: Number, use64: bool, bcdacc: array<nat>, at: nat) returns (num: BcdNum)
    requires f.Valid() && f.oplen <= 4 && Holds(f, l) && Holds(f, r) && at + 18 * f.oplen <= bcdacc.Length
    modifies bcdacc
    ensures fresh(num) && num.buf == bcdacc && num.Valid()
    ensures num.Coefficient() == l.coeff * r.coeff && Fills(num.Coefficient(), at, num.lsd)
    ensures num.neg == (l.neg != r.neg) && num.exponent == l.exp + r.exp
  {
    hide Val, Units, Pow, BillUnits, Fills;
    var acc := ProductUnits(f, l.coeff, r.coeff, use64);
    ghost var product := l.coeff * r.coeff;
    ProductFits(f, l.coeff, r.coeff);
    BillUnitsValue(product, 2 * f.oplen);
    var msd, lsd := LayOutProduct(f, acc, product, bcdacc, at);
    num := new BcdNum(bcdacc, msd, lsd, l.neg != r.neg, l.exp + r.exp);
  }

  /** decFloatMultiply. */
  method FloatMultiply(f: Format, l: Number, r: Number, ctx: DecContext, use64: bool) returns (df: Number)
    requires f.Valid() && f.oplen <= 4 && IsNumber(f, l) && IsNumber(f, r)
    modifies ctx`status
    ensures l.Finite? && r.Finite? ==>
      var o := RoundScaled(f, ctx.round, l.neg != r.neg, l.coeff * r.coeff, l.exp + r.exp);
      df == o.num && ctx.status == old(ctx.status) + o.raised
    ensures l.NaN? || r.NaN? ==> df == NaN(false) && ctx.status == old(ctx.status) + NaNRaises(l, r)
    ensures (l.Infinite? && IsZero(r)) || (IsZero(l) && r.Infinite?) ==>
      df == NaN(false) && ctx.status == old(ctx.status) + {InvalidOperation}
    ensures !l.NaN? && !r.NaN? && (l.Infinite? || r.Infinite?) && !IsZero(l) && !IsZero(r) ==>
      df == Infinite(l.neg != r.neg) && ctx.status == old(ctx.status)
  {
    if !l.Finite? || !r.Finite? {
      if l.NaN? || r.NaN? {
        df := PropagateNaN(l, r, ctx);
        return;
      }
      if (l.Infinite? && IsZero(r)) || (r.Infinite? && IsZero(l)) {
        ctx.Raise({InvalidOperation});
        return NaN(false);
      }
      return Infinite(l.neg != r.neg);
    }
    hide RoundScaled;
    var bcdacc := new nat[18 * f.oplen + 1];
    var num := FiniteMultiply(f, l, r, use64, bcdacc, 0);
    df := Finalize(f, num, ctx);
  }

  lemma TrimUnits(s: seq<nat>, n: nat)
    requires n <= |s| && forall i :: n <= i < |s| ==> s[i] == 0
    ensures Units(BILLION, s[..n]) == Units(BILLION, s)
  {
    hide Units;
    assert s == s[..n] + s[n..];
    UnitsConcat(BILLION, s[..n], s[n..]);
    UnitsZeros(BILLION, s[n..]);
    hide *;
  }

  /** Leading digits that a small value cannot use are zeros. */
  lemma SkipLeading(s: seq<nat>, z: nat, x: nat)
    requires z < |s| && AreDigits(s) && Val(s) == x && (z > 0 ==> x < Pow(10, |s| - z))
    ensures AreDigits(s[z..]) && Val(s[z..]) == x
  {
    hide Val, Pow;
    ValSplit(s, z);
    if z > 0 {
      if Val(s[..z]) > 0 { MulMono(1, Val(s[..z]), Pow(10, |s| - z)); }
      assert Val(s[..z]) * Pow(10, |s| - z) == 0;
    } else {
      assert s[z..] == s;
    }
  }
}
