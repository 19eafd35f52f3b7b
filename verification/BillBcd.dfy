/** Coefficients in base 10^9: taking them apart into units and laying units out as digits. */
module BillBcd {
  import opened Arith
  import opened Digits
  import opened Rounding

  /* ---- GETCOEFFBILL ---- */

  /** The n base-billion units of c, least significant first. */
  function BillUnits(c: nat, n: nat): (s: seq<nat>)
    ensures |s| == n && AreUnits(BILLION, s)
  {
    if n == 0 then [] else [c % BILLION] + BillUnits(c / BILLION, n - 1)
  }

  lemma {:induction false} BillUnitsValue(c: nat, n: nat)
    requires c < Pow(BILLION, n)
    ensures Units(BILLION, BillUnits(c, n)) == c
  {
    if n > 0 {
      DivLt(c, BILLION, Pow(BILLION, n - 1));
      BillUnitsValue(c / BILLION, n - 1);
      UnitsFirst(BILLION, BillUnits(c, n));
      assert BillUnits(c, n)[1..] == BillUnits(c / BILLION, n - 1);
    }
  }

  /** Reduced units of a value are its BillUnits. */
  lemma BillUnitsAre(s: seq<nat>, c: nat)
    requires AreUnits(BILLION, s) && Units(BILLION, s) == c
    ensures s == BillUnits(c, |s|)
  {
    UnitsBound(BILLION, s);
    BillUnitsValue(c, |s|);
    UnitsUnique(BILLION, s, BillUnits(c, |s|));
  }

  lemma CoefficientFits(f: Format, c: nat)
    requires f.Valid() && c < Pow(10, f.p)
    ensures c < Pow(BILLION, f.oplen)
  {
    SmallPowers();
    PowPow(10, 9, f.oplen);
    PowMono(10, f.p, 9 * f.oplen);
  }

  method LoadUnits(c: nat, n: nat) returns (buf: array<nat>)
    requires c < Pow(BILLION, n)
    ensures fresh(buf) && buf.Length == n && buf[..] == BillUnits(c, n)
    ensures AreUnits(BILLION, buf[..]) && Units(BILLION, buf[..]) == c
  {
    var s := BillUnits(c, n);
    buf := new nat[n](i requires 0 <= i < n => s[i]);
    assert buf[..] == s;
    BillUnitsValue(c, n);
  }

  lemma BillPow(n: nat)
    ensures Pow(BILLION, n) == Pow(10, 9 * n)
  {
    SmallPowers();
    PowPow(10, 9, n);
  }

  /* ---- Units to BCD ---- */

  /** A row of BIN2BCD8: the three digits of 0 to 999. */
  function Bin2Bcd(n: nat): (s: seq<nat>)
    requires n < 1000
    ensures |s| == 3 && AreDigits(s) && Val(s) == n
  {
    ThreeDigits(n);
    [n / 100, n / 10 % 10, n % 10]
  }

  lemma ThreeDigits(n: nat)
    requires n < 1000
    ensures n / 100 <= 9 && AreDigits([n / 100, n / 10 % 10, n % 10]) && Val([n / 100, n / 10 % 10, n % 10]) == n
  {
    hide Val;
    assert n == 100 * (n / 100) + 10 * (n / 10 % 10) + n % 10;
    var x, y, z := n / 100, n / 10 % 10, n % 10;
    hide *;
    ValThree(x, y, z);
  }

  lemma ValThree(x: nat, y: nat, z: nat)
    requires x <= 9 && y <= 9 && z <= 9
    ensures AreDigits([x, y, z]) && Val([x, y, z]) == 100 * x + 10 * y + z
  {
    hide Val;
    assert [x, y] == [x] + [y] && [x, y, z] == [x, y] + [z];
    ValOne(x);
    ValAppend([x], y);
    ValAppend([x, y], z);
  }

  method LayOutThree(ub: array<nat>, at: nat, n: nat)
    requires at + 3 <= ub.Length && n < 1000
    modifies ub
    ensures ub[at..at + 3] == Bin2Bcd(n)
    ensures forall i :: 0 <= i < ub.Length && !(at <= i < at + 3) ==> ub[i] == old(ub[i])
  {
    var s := Bin2Bcd(n);
    ub[at], ub[at + 1], ub[at + 2] := s[0], s[1], s[2];
  }

  /** Lays out the nine digits of one unit. */
  method LayOutUnit(ub: array<nat>, at: nat, unit: nat)
    requires at + 9 <= ub.Length && unit < BILLION
    modifies ub
    ensures AreDigits(ub[at..at + 9]) && Val(ub[at..at + 9]) == unit
    ensures forall i :: 0 <= i < ub.Length && !(at <= i < at + 9) ==> ub[i] == old(ub[i])
  {
    hide Val, Bin2Bcd;
    if unit == 0 {
      forall i | at <= i < at + 9 { ub[i] := 0; }
      ValZeros(ub[at..at + 9]);
    } else {
      var top, rem := unit / 1_000_000, unit % 1_000_000;
      var mid := rem / 1000;
      rem := rem % 1000;
      LayOutThree(ub, at, top);
      LayOutThree(ub, at + 3, mid);
      LayOutThree(ub, at + 6, rem);
      assert ub[at..at + 9] == Bin2Bcd(top) + Bin2Bcd(mid) + Bin2Bcd(rem);
      ThreeTriads(top, mid, rem);
    }
  }

  lemma ThreeTriads(top: nat, mid: nat, rem: nat)
    requires top < 1000 && mid < 1000 && rem < 1000
    ensures var s := Bin2Bcd(top) + Bin2Bcd(mid) + Bin2Bcd(rem);
      AreDigits(s) && Val(s) == (top * 1000 + mid) * 1000 + rem
  {
    hide Bin2Bcd, Val;
    SmallPowers();
    ValConcat(Bin2Bcd(top), Bin2Bcd(mid));
    ValConcat(Bin2Bcd(top) + Bin2Bcd(mid), Bin2Bcd(rem));
  }

  /** Lays out the units lo..hi, the one at hi-1 first, as digits starting at ub[at]. */
  method LayOutUnits(units: array<nat>, lo: nat, hi: nat, ub: array<nat>, at: nat)
    requires units != ub && lo <= hi <= units.Length && AreUnits(BILLION, units[lo..hi])
    requires at + 9 * (hi - lo) <= ub.Length
    modifies ub
    ensures AreDigits(ub[at..at + 9 * (hi - lo)])
    ensures Val(ub[at..at + 9 * (hi - lo)]) == Units(BILLION, units[lo..hi])
    ensures forall i :: 0 <= i < ub.Length && !(at <= i < at + 9 * (hi - lo)) ==> ub[i] == old(ub[i])
  {
    hide Val, Units;
    var pa, b := hi, at;
    ghost var u := units[..];
    ValZeros(ub[at..b]);
    UnitsZeros(BILLION, u[pa..hi]);
    while pa > lo
      invariant lo <= pa <= hi && b == at + 9 * (hi - pa)
      invariant units[..] == u && AreDigits(ub[at..b])
      invariant Val(ub[at..b]) == Units(BILLION, u[pa..hi])
      invariant forall i :: 0 <= i < ub.Length && !(at <= i < b) ==> ub[i] == old(ub[i])
    {
      ghost var s := ub[at..b];
      assert forall i :: at <= i < b ==> ub[i] == s[i - at];
      assert units[pa - 1] == units[lo..hi][pa - 1 - lo];
      LayOutUnit(ub, b, units[pa - 1]);
      assert forall i :: at <= i < b ==> ub[i] == s[i - at];
      assert ub[at..b + 9] == s + ub[b..b + 9];
      NextUnit(s, ub[b..b + 9], u[pa - 1..hi]);
      assert u[pa - 1..hi][1..] == u[pa..hi];
      pa, b := pa - 1, b + 9;
    }
    assert u[lo..hi] == units[lo..hi];
  }

  lemma NextUnit(s: seq<nat>, t: seq<nat>, u: seq<nat>)
    requires AreDigits(s) && AreDigits(t) && |t| == 9 && |u| > 0
    requires Val(s) == Units(BILLION, u[1..]) && Val(t) == u[0]
    ensures AreDigits(s + t) && Val(s + t) == Units(BILLION, u)
  {
    hide Val, Units;
    SmallPowers();
    ValConcat(s, t);
    UnitsFirst(BILLION, u);
  }
}
