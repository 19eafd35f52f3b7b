/** Powers, quotients and products: the integer facts shared by every other module. */
module Arith {

  const BILLION: nat := 1_000_000_000
  const TWO32: nat := 0x1_0000_0000
  const TWO64: nat := 0x1_0000_0000_0000_0000

  function Pow(b: nat, n: nat): (r: nat)
    requires b > 0
    ensures r > 0
  {
    if n == 0 then 1 else MulPos(b, Pow(b, n - 1)); b * Pow(b, n - 1)
  }

  function Max(x: int, y: int): int { if x < y then y else x }

  function Min(x: int, y: int): int { if x > y then y else x }

  lemma MulPos(x: int, y: int)
    requires x > 0 && y > 0
    ensures x * y > 0
  {}

  lemma OneMore(x: int, p: int)
    ensures (x + 1) * p == x * p + p
  {}

  lemma MulMono(x: int, y: int, z: int)
    requires x <= y && 0 <= z
    ensures x * z <= y * z
    ensures z * x <= z * y
  {}

  function Multiple(t: nat, w: nat): nat {
    MulMono(0, t, w);
    t * w
  }

  lemma MulStrict(x: int, y: int, z: int)
    requires x < y && 0 < z
    ensures x * z < y * z
    ensures z * x < z * y
  {}

  lemma MulBound(x: nat, y: nat, t: nat, u: nat)
    requires x < y && 0 < t <= u
    ensures x * t < y * u
  {
    MulStrict(x, y, t);
    MulMono(t, u, y);
  }

  lemma MulCancel(x: int, y: int, z: int)
    requires z > 0
    ensures x * z < y * z ==> x < y
    ensures x * z <= y * z ==> x <= y
    ensures x * z == y * z ==> x == y
  {
    if x < y { MulStrict(x, y, z); }
    if y < x { MulStrict(y, x, z); }
  }

  lemma {:induction false} PowAdd(b: nat, m: nat, n: nat)
    requires b > 0
    ensures Pow(b, m + n) == Pow(b, m) * Pow(b, n)
  {
    if m > 0 {
      PowAdd(b, m - 1, n);
      assert Pow(b, m + n) == b * Pow(b, m - 1 + n);
      MulAssoc(b, Pow(b, m - 1), Pow(b, n));
    }
  }

  lemma MulAssoc(x: int, y: int, z: int)
    ensures x * (y * z) == (x * y) * z
  {}

  lemma TenMore(n: nat)
    ensures Pow(10, n + 1) == 10 * Pow(10, n)
  {}

  lemma Commute(x: int, y: int, z: int)
    ensures x * (y * z) == y * (x * z)
  {}

  /** A power splits at any smaller exponent. */
  lemma PowSplit(b: nat, n: nat, m: nat)
    requires b > 0 && m <= n
    ensures Pow(b, n) == Pow(b, m) * Pow(b, n - m) == Pow(b, n - m) * Pow(b, m)
  {
    PowAdd(b, m, n - m);
  }

  lemma {:induction false} PowMono(b: nat, m: nat, n: nat)
    requires b > 0 && m <= n
    ensures Pow(b, m) <= Pow(b, n)
    ensures b > 1 && m < n ==> b * Pow(b, m) <= Pow(b, n) && Pow(b, m) < Pow(b, n)
  {
    if m < n {
      PowMono(b, m, n - 1);
      MulMono(Pow(b, m), Pow(b, n - 1), b);
      MulMono(1, b, Pow(b, m));
      if b > 1 { MulStrict(1, b, Pow(b, m)); }
    }
  }

  lemma {:induction false} PowPow(b: nat, m: nat, n: nat)
    requires b > 0
    ensures Pow(Pow(b, m), n) == Pow(b, m * n)
  {
    if n > 0 {
      PowPow(b, m, n - 1);
      assert m * n == m + m * (n - 1);
      PowAdd(b, m, m * (n - 1));
    }
  }

  lemma ThousandsAreTens(n: nat)
    ensures Pow(1000, n) == Pow(10, 3 * n)
  {
    SmallPowers();
    PowPow(10, 3, n);
  }

  /** A quotient and remainder are fixed by the identity and the range. */
  lemma DivModUnique(x: int, d: int, q: int, r: int)
    requires d > 0 && 0 <= r < d && x == q * d + r
    ensures x / d == q && x % d == r
  {
    var q', r' := x / d, x % d;
    assert x == d * q' + r' && 0 <= r' < d;
    assert (q - q') * d == r' - r;
    if q > q' { MulMono(1, q - q', d); }
    if q < q' { MulMono(q - q', -1, d); }
  }

  /** The quotient is bounded by the products on each side. */
  lemma DivBounds(x: int, d: int)
    requires d > 0
    ensures (x / d) * d <= x < (x / d) * d + d
    ensures x == (x / d) * d + x % d && 0 <= x % d < d
  {}

  lemma DivGe(x: int, d: int, q: int)
    requires d > 0 && q * d <= x
    ensures q <= x / d
  {
    DivBounds(x, d);
    if x / d < q { MulMono(x / d + 1, q, d); }
  }

  lemma DivLt(x: int, d: int, q: int)
    requires d > 0 && x < q * d
    ensures x / d < q
  {
    DivBounds(x, d);
    if q <= x / d { MulMono(q, x / d, d); }
  }

  lemma QuotientNat(x: nat, d: nat)
    requires d > 0
    ensures x / d >= 0 && x % d <= x
  {}

  /** Dividing twice. */
  lemma NestedDivision(x: nat, d: nat, t: nat)
    requires d > 0 && t > 0
    ensures d * t > 0 && x / (d * t) == x / d / t && x % (d * t) == (x / d % t) * d + x % d
  {
    MulPos(d, t);
    var q := x / d;
    DivBounds(x, d);
    DivBounds(q, t);
    MulMono(q % t + 1, t, d);
    MulMono(0, q % t, d);
    assert (q % t + 1) * d == q % t * d + d;
    assert q * d == (q / t) * (d * t) + q % t * d by {
      assert q == (q / t) * t + q % t;
      assert ((q / t) * t + q % t) * d == (q / t) * t * d + q % t * d;
      assert (q / t) * t * d == (q / t) * (d * t);
    }
    DivModUnique(x, d * t, q / t, q % t * d + x % d);
  }

  /** Scaling both parts of a fraction changes neither quotient nor divisibility. */
  lemma ScaleDivMod(x: int, d: int, t: int)
    requires d > 0 && t > 0
    ensures d * t > 0
    ensures (x * t) / (d * t) == x / d
    ensures (x * t) % (d * t) == (x % d) * t
  {
    MulPos(d, t);
    var q, r := x / d, x % d;
    DivBounds(x, d);
    MulStrict(r, d, t);
    MulMono(0, r, t);
    assert x * t == (q * d + r) * t == q * (d * t) + r * t;
    DivModUnique(x * t, d * t, q, r * t);
  }

  /** The first few powers of ten. */
  lemma SmallPowers()
    ensures Pow(10, 0) == 1 && Pow(10, 1) == 10 && Pow(10, 2) == 100 && Pow(10, 3) == 1000
    ensures Pow(10, 9) == BILLION
  {
    assert Pow(10, 1) == 10 * Pow(10, 0);
    assert Pow(10, 2) == 10 * Pow(10, 1);
    assert Pow(10, 3) == 10 * Pow(10, 2);
    PowAdd(10, 3, 3);
    PowAdd(10, 6, 3);
  }
}
