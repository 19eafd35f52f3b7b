/** Strings of decimal digits, most significant first, and arrays of units, least significant
    first: the two forms in which the library holds a coefficient. */
module Digits {
  import opened Arith

  /* ---- Digit strings (BCD8): index 0 is the most significant digit ---- */

  ghost predicate AreDigits(s: seq<nat>) {
    forall i :: 0 <= i < |s| ==> s[i] <= 9
  }

  function Val(s: seq<nat>): nat {
    if |s| == 0 then 0 else 10 * Val(s[..|s| - 1]) + s[|s| - 1]
  }

  lemma {:induction false} ValAppend(s: seq<nat>, d: nat)
    ensures Val(s + [d]) == 10 * Val(s) + d
  {
    assert (s + [d])[..|s|] == s;
  }

  lemma {:induction false} ValConcat(s: seq<nat>, t: seq<nat>)
    ensures Val(s + t) == Val(s) * Pow(10, |t|) + Val(t)
  {
    if |t| == 0 {
      assert s + t == s;
    } else {
      var u, d := t[..|t| - 1], t[|t| - 1];
      assert s + t == (s + u) + [d];
      ValAppend(s + u, d);
      ValConcat(s, u);
      TenTimes(Val(s), Pow(10, |u|));
    }
  }

  lemma TenTimes(x: nat, p: nat)
    ensures x * (10 * p) == 10 * (x * p)
  {}

  /** Splitting a digit string at i. */
  lemma ValSplit(s: seq<nat>, i: nat)
    requires i <= |s|
    ensures Val(s) == Val(s[..i]) * Pow(10, |s| - i) + Val(s[i..])
  {
    assert s == s[..i] + s[i..];
    ValConcat(s[..i], s[i..]);
  }

  lemma {:induction false} ValBound(s: seq<nat>)
    requires AreDigits(s)
    ensures Val(s) < Pow(10, |s|)
  {
    if |s| > 0 { ValBound(s[..|s| - 1]); }
  }

  lemma {:induction false} ValZeros(s: seq<nat>)
    ensures (forall i :: 0 <= i < |s| ==> s[i] == 0) <==> Val(s) == 0
  {
    if |s| > 0 {
      ValZeros(s[..|s| - 1]);
      if Val(s) == 0 { assert forall i :: 0 <= i < |s| - 1 ==> s[i] == s[..|s| - 1][i]; }
    }
  }

  lemma {:induction false} ValNines(s: seq<nat>)
    requires forall i :: 0 <= i < |s| ==> s[i] == 9
    ensures Val(s) == Pow(10, |s|) - 1
  {
    if |s| > 0 { ValNines(s[..|s| - 1]); }
  }

  lemma ValOne(d: nat)
    ensures Val([d]) == d
  {
    assert [d][..0] == [];
  }

  /** The leading digit fixes the order of magnitude. */
  lemma ValLeading(s: seq<nat>)
    requires |s| > 0 && AreDigits(s)
    ensures s[0] <= 9
    ensures Val(s) == s[0] * Pow(10, |s| - 1) + Val(s[1..])
    ensures s[0] != 0 ==> Pow(10, |s| - 1) <= Val(s)
    ensures Val(s[1..]) < Pow(10, |s| - 1)
  {
    ValSplit(s, 1);
    assert s[..1] == [s[0]];
    ValOne(s[0]);
    ValBound(s[1..]);
    if s[0] != 0 { MulMono(1, s[0], Pow(10, |s| - 1)); }
  }

  lemma ValSkipZero(s: seq<nat>)
    requires |s| > 0 && s[0] == 0
    ensures Val(s) == Val(s[1..])
  {
    ValSplit(s, 1);
    assert s[..1] == [0];
    ValOne(0);
  }

  /** Digits of the same length with the same value are the same digits. */
  lemma {:induction false} ValUnique(s: seq<nat>, t: seq<nat>)
    requires |s| == |t| && AreDigits(s) && AreDigits(t) && Val(s) == Val(t)
    ensures s == t
  {
    if |s| > 0 {
      var n := |s| - 1;
      assert s[n] == t[n] && Val(s[..n]) == Val(t[..n]);
      ValUnique(s[..n], t[..n]);
      assert s == s[..n] + [s[n]] && t == t[..n] + [t[n]];
    }
  }

  /** Cutting a digit string divides its value by a power of ten. */
  lemma {:induction false} CutValue(s: seq<nat>, keep: nat)
    requires AreDigits(s) && keep <= |s|
    ensures AreDigits(s[keep..])
    ensures Val(s) / Pow(10, |s| - keep) == Val(s[..keep])
    ensures Val(s) % Pow(10, |s| - keep) == Val(s[keep..])
  {
    hide Val, Pow;
    ValSplit(s, keep);
    ValBound(s[keep..]);
    DivModUnique(Val(s), Pow(10, |s| - keep), Val(s[..keep]), Val(s[keep..]));
  }

  /** A slice of a slice. */
  lemma SubSlice(s: seq<nat>, from: nat, to: nat, i: nat, j: nat)
    requires from <= to <= |s| && i <= j <= to - from
    ensures s[from..to][i..j] == s[from + i..from + j]
  {
    var x, y := s[from..to][i..j], s[from + i..from + j];
    forall k | 0 <= k < j - i ensures x[k] == y[k] {
      assert x[k] == s[from..to][i + k];
    }
  }

  lemma SameSlice(s: seq<nat>, t: seq<nat>, i: nat, j: nat)
    requires i <= j <= |s| && j <= |t| && forall k :: i <= k < j ==> s[k] == t[k]
    ensures s[i..j] == t[i..j]
  {}

  lemma SliceJoin(s: seq<nat>, i: nat, j: nat, k: nat)
    requires i <= j <= k <= |s|
    ensures s[i..k] == s[i..j] + s[j..k]
  {}

  /** n zeros. */
  function Zeros(n: nat): (s: seq<nat>)
    ensures |s| == n && (forall i :: 0 <= i < n ==> s[i] == 0) && Val(s) == 0 && AreDigits(s)
  {
    var s := seq(n, _ => 0);
    ValZeros(s);
    s
  }

  lemma ValPadded(n: nat, s: seq<nat>)
    ensures Val(Zeros(n) + s) == Val(s)
    ensures Val(s + Zeros(n)) == Val(s) * Pow(10, n)
    ensures AreDigits(s) ==> AreDigits(Zeros(n) + s) && AreDigits(s + Zeros(n))
  {
    hide Val, Pow;
    ValConcat(Zeros(n), s);
    ValConcat(s, Zeros(n));
    assert 0 * Pow(10, |s|) == 0;
  }

  /** The nines' complement of every digit. */
  function Complement(s: seq<nat>): (t: seq<nat>)
    requires AreDigits(s)
    ensures |t| == |s| && AreDigits(t) && forall i :: 0 <= i < |s| ==> t[i] == 9 - s[i]
  {
    seq(|s|, i requires 0 <= i < |s| => 9 - s[i])
  }

  lemma {:induction false} ValComplement(s: seq<nat>)
    requires AreDigits(s)
    ensures Val(Complement(s)) == Pow(10, |s|) - 1 - Val(s)
  {
    if |s| > 0 {
      ValComplement(s[..|s| - 1]);
      assert Complement(s)[..|s| - 1] == Complement(s[..|s| - 1]);
    }
  }

  /** A digit in front of a string. */
  lemma ValPrepend(d: nat, s: seq<nat>)
    ensures Val([d] + s) == d * Pow(10, |s|) + Val(s)
  {
    ValConcat([d], s);
    ValOne(d);
  }

  /** How many digits a number has; a zero has one. */
  function NumDigits(c: nat): (n: nat)
    ensures n > 0
  {
    if c < 10 then 1 else 1 + NumDigits(c / 10)
  }

  lemma {:induction false} NumDigitsBounds(c: nat)
    ensures c < Pow(10, NumDigits(c))
    ensures c > 0 ==> Pow(10, NumDigits(c) - 1) <= c
  {
    SmallPowers();
    if c >= 10 { NumDigitsBounds(c / 10); }
  }

  lemma NumDigitsIs(c: nat, n: nat)
    requires n > 0 && c < Pow(10, n) && (n > 1 ==> Pow(10, n - 1) <= c)
    ensures NumDigits(c) == n
  {
    NumDigitsBounds(c);
    SmallPowers();
    if NumDigits(c) < n { PowMono(10, NumDigits(c), n - 1); }
    if n < NumDigits(c) && c > 0 { PowMono(10, n, NumDigits(c) - 1); }
  }

  /** The last n digits of c, as GETCOEFF decodes them. */
  function DecimalDigits(c: nat, n: nat): (s: seq<nat>)
    ensures |s| == n && AreDigits(s)
  {
    if n == 0 then [] else DecimalDigits(c / 10, n - 1) + [c % 10]
  }

  lemma {:induction false} DecimalDigitsValue(c: nat, n: nat)
    requires c < Pow(10, n)
    ensures Val(DecimalDigits(c, n)) == c
  {
    if n > 0 {
      DecimalDigitsValue(c / 10, n - 1);
      ValAppend(DecimalDigits(c / 10, n - 1), c % 10);
    }
  }

  /* ---- Unit arrays in base b: index 0 is the least significant unit ---- */

  ghost predicate AreUnits(b: nat, s: seq<nat>) {
    forall i :: 0 <= i < |s| ==> s[i] < b
  }

  /** The value of units of any size, in base b, least significant first. */
  function Units(b: nat, s: seq<nat>): nat
    requires b > 0
  {
    if |s| == 0 then 0 else Units(b, s[..|s| - 1]) + s[|s| - 1] * Pow(b, |s| - 1)
  }

  lemma UnitsAppend(b: nat, s: seq<nat>, u: nat)
    requires b > 0
    ensures Units(b, s + [u]) == Units(b, s) + u * Pow(b, |s|)
  {
    assert (s + [u])[..|s|] == s;
  }

  /** One more unit of a longer array. */
  lemma UnitsNext(b: nat, s: seq<nat>, i: nat)
    requires b > 0 && i < |s|
    ensures Units(b, s[..i + 1]) == Units(b, s[..i]) + s[i] * Pow(b, i)
  {
    assert s[..i + 1] == s[..i] + [s[i]];
    UnitsAppend(b, s[..i], s[i]);
  }

  lemma {:induction false} UnitsConcat(b: nat, s: seq<nat>, t: seq<nat>)
    requires b > 0
    ensures Units(b, s + t) == Units(b, s) + Units(b, t) * Pow(b, |s|)
  {
    if |t| == 0 {
      assert s + t == s;
    } else {
      var u, d := t[..|t| - 1], t[|t| - 1];
      assert s + t == (s + u) + [d];
      UnitsAppend(b, s + u, d);
      UnitsConcat(b, s, u);
      PowAdd(b, |s|, |u|);
      UnitsRegroup(Units(b, u), d, Pow(b, |u|), Pow(b, |s|));
    }
  }

  lemma UnitsRegroup(x: nat, d: nat, y: nat, z: nat)
    ensures (x + d * y) * z == x * z + d * (z * y)
  {}

  lemma UnitsFirst(b: nat, s: seq<nat>)
    requires b > 0 && |s| > 0
    ensures Units(b, s) == s[0] + Units(b, s[1..]) * b
  {
    assert s == [s[0]] + s[1..];
    UnitsConcat(b, [s[0]], s[1..]);
    assert [s[0]] == [] + [s[0]];
    UnitsAppend(b, [], s[0]);
    assert Pow(b, 1) == b;
  }

  lemma {:induction false} UnitsBound(b: nat, s: seq<nat>)
    requires b > 0 && AreUnits(b, s)
    ensures Units(b, s) < Pow(b, |s|)
  {
    if |s| > 0 {
      var n := |s| - 1;
      UnitsBound(b, s[..n]);
      MulMono(s[n] + 1, b, Pow(b, n));
      assert (s[n] + 1) * Pow(b, n) == s[n] * Pow(b, n) + Pow(b, n);
    }
  }

  lemma {:induction false} UnitsZeros(b: nat, s: seq<nat>)
    requires b > 0
    ensures (forall i :: 0 <= i < |s| ==> s[i] == 0) <==> Units(b, s) == 0
  {
    if |s| > 0 {
      var n := |s| - 1;
      UnitsZeros(b, s[..n]);
      if s[n] > 0 { MulPos(s[n], Pow(b, n)); }
      if Units(b, s) == 0 { assert forall i :: 0 <= i < n ==> s[i] == s[..n][i]; }
    }
  }

  /** Changing one unit changes the value by the difference at that position. */
  lemma {:induction false} UnitsUpdate(b: nat, s: seq<nat>, i: nat, u: nat)
    requires b > 0 && i < |s|
    ensures Units(b, s[i := u]) == Units(b, s) + (u - s[i]) * Pow(b, i)
  {
    var n := |s| - 1;
    if i == n {
      assert s[i := u][..n] == s[..n];
      assert (u - s[i]) * Pow(b, i) == u * Pow(b, i) - s[i] * Pow(b, i);
    } else {
      assert s[i := u][..n] == s[..n][i := u];
      UnitsUpdate(b, s[..n], i, u);
    }
  }

  lemma UnitsAdd(b: nat, s: seq<nat>, i: nat, x: nat)
    requires b > 0 && i < |s|
    ensures Units(b, s[i := s[i] + x]) == Units(b, s) + x * Pow(b, i)
  {
    UnitsUpdate(b, s, i, s[i] + x);
  }

  /** Reduced units of the same length and value are the same units. */
  lemma {:induction false} UnitsUnique(b: nat, s: seq<nat>, t: seq<nat>)
    requires b > 0 && |s| == |t| && AreUnits(b, s) && AreUnits(b, t) && Units(b, s) == Units(b, t)
    ensures s == t
  {
    if |s| > 0 {
      hide Units, Pow;
      var n := |s| - 1;
      assert s[..n + 1] == s && t[..n + 1] == t;
      UnitsNext(b, s, n);
      UnitsNext(b, t, n);
      UnitsBound(b, s[..n]);
      UnitsBound(b, t[..n]);
      DivModUnique(Units(b, s), Pow(b, n), s[n], Units(b, s[..n]));
      DivModUnique(Units(b, t), Pow(b, n), t[n], Units(b, t[..n]));
      UnitsUnique(b, s[..n], t[..n]);
      assert s == s[..n] + [s[n]] && t == t[..n] + [t[n]];
    }
  }
}
