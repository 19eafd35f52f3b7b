/** decFloatFMA: a product and an addend combined digit by digit and rounded once. */
module FusedAdd {
  import opened Arith
  import opened Digits
  import opened Rounding
  import opened Context
  import opened Finalizer
  import opened Multiply
  import opened ExactSum
  import opened Separation
  import opened SameHalf

  /* ---- Digit-by-digit addition of two virtual strings of equal width ---- */

  /** hi, moved left by padding and complemented when the signs differ, as a string of width w. */
  ghost function HiString(s: seq<nat>, padding: nat, w: nat, diffsign: bool): (t: seq<nat>)
    requires AreDigits(s) && |s| + padding <= w
    ensures |t| == w && AreDigits(t)
  {
    var z := Zeros(w - padding - |s|) + s;
    ValPadded(w - padding - |s|, s);
    ValPadded(padding, if diffsign then Complement(z) else z);
    (if diffsign then Complement(z) else z) + Zeros(padding)
  }

  /** lo, extended with zeros on the left to width w. */
  ghost function LoString(s: seq<nat>, w: nat): (t: seq<nat>)
    requires AreDigits(s) && |s| <= w
    ensures |t| == w && AreDigits(t)
  {
    ValPadded(w - |s|, s);
    Zeros(w - |s|) + s
  }

  lemma LoStringValue(s: seq<nat>, w: nat)
    requires AreDigits(s) && |s| <= w
    ensures Val(LoString(s, w)) == Val(s)
  {
    hide Val, Pow, Zeros;
    ValPadded(w - |s|, s);
  }

  /** With the carry of one at the last digit of hi, a complemented hi stands for -hi. */
  lemma HiStringValue(s: seq<nat>, padding: nat, w: nat, diffsign: bool)
    requires AreDigits(s) && |s| + padding <= w
    ensures !diffsign ==> Val(HiString(s, padding, w, diffsign)) == Val(s) * Pow(10, padding)
    ensures diffsign ==>
      Val(HiString(s, padding, w, diffsign)) + Pow(10, padding) == Pow(10, w) - Val(s) * Pow(10, padding)
  {
    hide Val, Pow, Zeros, Complement;
    var z := Zeros(w - padding - |s|) + s;
    ValPadded(w - padding - |s|, s);
    if diffsign {
      ComplementPadded(z, padding);
    } else {
      ValPadded(padding, z);
    }
  }

  lemma ComplementPadded(z: seq<nat>, padding: nat)
    requires AreDigits(z)
    ensures Val(Complement(z) + Zeros(padding)) + Pow(10, padding)
         == Pow(10, |z| + padding) - Val(z) * Pow(10, padding)
  {
    hide *;
    ValComplement(z);
    ValPadded(padding, Complement(z));
    PowAdd(10, |z|, padding);
    ComplementShift(Pow(10, |z|), Val(z), Pow(10, padding));
  }

  lemma ComplementShift(x: nat, v: nat, p: nat)
    ensures (x - 1 - v) * p + p == x * p - v * p
  {}

  /** carry * 10^t plus the digits written so far equals the two strings' last t digits plus the
      carry injected at position inject. */
  ghost predicate Summed(a: seq<nat>, b: seq<nat>, t: nat, carry: nat, digits: seq<nat>, injected: nat)
    requires |a| == |b| && t <= |a|
  {
    && |digits| == t && AreDigits(digits) && carry <= 1
    && carry * Pow(10, t) + Val(digits) == Val(a[|a| - t..]) + Val(b[|b| - t..]) + injected
  }

  /** One more digit position. */
  lemma SumStep(a: seq<nat>, b: seq<nat>, t: nat, carry: nat, digits: seq<nat>, injected: nat)
    requires |a| == |b| && t < |a| && AreDigits(a) && AreDigits(b) && Summed(a, b, t, carry, digits, injected)
    ensures var d := carry + a[|a| - 1 - t] + b[|b| - 1 - t];
      && d <= 19
      && (d < 10 ==> Summed(a, b, t + 1, 0, [d] + digits, injected))
      && (d >= 10 ==> Summed(a, b, t + 1, 1, [d - 10] + digits, injected))
  {
    hide Val, Pow;
    TailStep(a, t);
    TailStep(b, t);
    var x, y := a[|a| - 1 - t], b[|b| - 1 - t];
    var d := carry + x + y;
    ValPrepend(d, digits);
    if d >= 10 { ValPrepend(d - 10, digits); }
    TenMore(t);
    ThreeTerms(carry, x, y, Pow(10, t));
  }

  lemma TailStep(a: seq<nat>, t: nat)
    requires t < |a| && AreDigits(a)
    ensures a[|a| - 1 - t] <= 9
    ensures Val(a[|a| - (t + 1)..]) == a[|a| - 1 - t] * Pow(10, t) + Val(a[|a| - t..])
  {
    assert a[|a| - 1 - t..] == [a[|a| - 1 - t]] + a[|a| - t..];
    ValPrepend(a[|a| - 1 - t], a[|a| - t..]);
  }

  lemma ThreeTerms(c: nat, x: nat, y: nat, p: nat)
    ensures (c + x + y) * p == c * p + x * p + y * p
    ensures c + x + y >= 10 ==> (c + x + y - 10) * p == c * p + x * p + y * p - 10 * p
    ensures 1 * (10 * p) == 10 * p && 0 * (10 * p) == 0
  {}

  /** Where the carry of one enters, at the last digit of hi. */
  lemma InjectCarry(a: seq<nat>, b: seq<nat>, t: nat, digits: seq<nat>)
    requires |a| == |b| && t <= |a| && Summed(a, b, t, 0, digits, 0)
    ensures Summed(a, b, t, 1, digits, Pow(10, t))
  {
    hide Pow, Val;
  }

  /** The digits of the two strings, read from the right. */
  lemma HiDigit(s: seq<nat>, padding: nat, w: nat, diffsign: bool, t: nat)
    requires AreDigits(s) && |s| + padding <= w && t < w
    ensures HiString(s, padding, w, diffsign)[w - 1 - t] ==
      if t < padding then 0
      else if t < padding + |s| then (if diffsign then Complement(s) else s)[|s| - 1 - (t - padding)]
      else if diffsign then 9 else 0
  {
    hide Val, Pow;
  }

  lemma LoDigit(s: seq<nat>, w: nat, t: nat)
    requires AreDigits(s) && |s| <= w && t < w
    ensures LoString(s, w)[w - 1 - t] == if t < |s| then s[|s| - 1 - t] else 0
  {
    hide Val, Pow;
  }

  /** Writes one digit of a sum and returns the carry. */
  method PutDigit(res: array<nat>, ub: nat, sum: nat, ghost a: seq<nat>, ghost b: seq<nat>,
                  ghost carry: nat, ghost injected: nat) returns (carry': nat)
    requires ub < res.Length && |a| == |b| && res.Length - 1 - ub < |a| && AreDigits(a) && AreDigits(b)
    requires var t := res.Length - 1 - ub;
      sum == carry + a[|a| - 1 - t] + b[|b| - 1 - t] && Summed(a, b, t, carry, res[ub + 1..], injected)
    modifies res
    ensures carry' == if sum < 10 then 0 else 1
    ensures Summed(a, b, res.Length - ub, carry', res[ub..], injected)
    ensures forall i :: 0 <= i < ub ==> res[i] == old(res[i])
  {
    hide Summed;
    ghost var t, digits := res.Length - 1 - ub, res[ub + 1..];
    SumStep(a, b, t, carry, digits, injected);
    if sum < 10 {
      res[ub], carry' := sum, 0;
    } else {
      res[ub], carry' := sum - 10, 1;
    }
    assert res[ub..] == [res[ub]] + digits;
  }

  /** The digits of hi that take part in the addition. */
  function AsAdded(hs: seq<nat>, diffsign: bool): seq<nat>
    requires AreDigits(hs)
  {
    if diffsign then Complement(hs) else hs
  }

  /** The digits m..u of a buffer, which are still to be read, are as they were: the first ones of s. */
  ghost predicate Unread(buf: array<nat>, m: nat, u: int, s: seq<nat>)
    reads buf
  {
    u < buf.Length && u - m < |s| && forall i :: m <= i <= u ==> buf[i] == s[i - m]
  }

  /** Four digits of lo at once; all are read before any is written. */
  method CopyFour(lb: array<nat>, lm: nat, ul: nat, ghost ls: seq<nat>, res: array<nat>, ub: nat,
                  ghost hs: seq<nat>, ghost padding: nat, ghost w: nat, ghost diffsign: bool)
    requires AreDigits(hs) && AreDigits(ls) && |hs| + padding <= w && |ls| <= w
    requires lm + 3 <= ul && Unread(lb, lm, ul, ls) && 4 <= ub < res.Length && (res == lb ==> ul <= ub)
    requires res.Length - 1 - ub == |ls| - 1 - (ul - lm) && res.Length - 1 - ub + 4 <= padding
    requires Summed(HiString(hs, padding, w, diffsign), LoString(ls, w), res.Length - 1 - ub, 0, res[ub + 1..], 0)
    modifies res
    ensures Unread(lb, lm, ul - 4, ls) && forall i :: 0 <= i <= ub - 4 ==> res[i] == old(res[i])
    ensures Summed(HiString(hs, padding, w, diffsign), LoString(ls, w), res.Length - 1 - ub + 4, 0, res[ub - 3..], 0)
  {
    hide Pow, Summed, HiString, LoString;
    ghost var a, b := HiString(hs, padding, w, diffsign), LoString(ls, w);
    ghost var t := res.Length - 1 - ub;
    var d3, d2, d1, d0 := lb[ul - 3], lb[ul - 2], lb[ul - 1], lb[ul];
    PadDigits(hs, ls, padding, w, diffsign, t);
    PadDigits(hs, ls, padding, w, diffsign, t + 1);
    PadDigits(hs, ls, padding, w, diffsign, t + 2);
    PadDigits(hs, ls, padding, w, diffsign, t + 3);
    var carry := PutDigit(res, ub, d0, a, b, 0, 0);
    carry := PutDigit(res, ub - 1, d1, a, b, 0, 0);
    carry := PutDigit(res, ub - 2, d2, a, b, 0, 0);
    carry := PutDigit(res, ub - 3, d3, a, b, 0, 0);
  }

  /** Right of hi only lo has digits. */
  lemma PadDigits(hs: seq<nat>, ls: seq<nat>, padding: nat, w: nat, diffsign: bool, t: nat)
    requires AreDigits(hs) && AreDigits(ls) && |hs| + padding <= w && |ls| <= w && t < padding
    ensures |HiString(hs, padding, w, diffsign)| == |LoString(ls, w)| == w
    ensures HiString(hs, padding, w, diffsign)[w - 1 - t] == 0
    ensures LoString(ls, w)[w - 1 - t] == if t < |ls| then ls[|ls| - 1 - t] else 0
  {
    hide HiString, LoString;
    HiDigit(hs, padding, w, diffsign, t);
    LoDigit(ls, w, t);
  }

  /** Right of hi's last digit the sum is lo's own digits, or a gap of zeros. */
  method CopyRight(ghost hs: seq<nat>, lb: array<nat>, lm: nat, ll: nat, ghost ls: seq<nat>, padding: nat,
                   ghost diffsign: bool, res: array<nat>, ghost w: nat) returns (ub: nat, ul: int)
    requires AreDigits(hs) && AreDigits(ls) && |hs| > 0 && |ls| == ll - lm + 1 > 0 && Unread(lb, lm, ll, ls)
    requires |hs| + padding <= w && |ls| <= w < res.Length
    modifies res
    ensures ub == res.Length - 1 - padding && forall i :: 0 <= i <= ub ==> res[i] == old(res[i])
    ensures ul == Max(lm - 1, ll - padding) && Unread(lb, lm, ul, ls)
    ensures Summed(HiString(hs, padding, w, diffsign), LoString(ls, w), padding, 0, res[ub + 1..], 0)
  {
    hide Pow, Summed, HiString, LoString;
    ghost var a, b := HiString(hs, padding, w, diffsign), LoString(ls, w);
    ub, ul := res.Length - 1, ll;
    var pad: nat := padding;
    SumStart(a, b, res[ub + 1..]);
    while ul - 3 >= lm && pad > 3
      invariant lm - 1 <= ul <= ll && pad <= padding && ll - ul == padding - pad == res.Length - 1 - ub
      invariant Unread(lb, lm, ul, ls) && forall i :: 0 <= i <= ub ==> res[i] == old(res[i])
      invariant Summed(a, b, padding - pad, 0, res[ub + 1..], 0)
      decreases pad
    {
      CopyFour(lb, lm, ul, ls, res, ub, hs, padding, w, diffsign);
      pad, ul, ub := pad - 4, ul - 4, ub - 4;
    }
    while ul >= lm && pad > 0
      invariant lm - 1 <= ul <= ll && pad <= padding && ll - ul == padding - pad == res.Length - 1 - ub
      invariant Unread(lb, lm, ul, ls) && forall i :: 0 <= i <= ub ==> res[i] == old(res[i])
      invariant Summed(a, b, padding - pad, 0, res[ub + 1..], 0)
      decreases pad
    {
      PadDigits(hs, ls, padding, w, diffsign, padding - pad);
      var _ := PutDigit(res, ub, lb[ul], a, b, 0, 0);
      pad, ul, ub := pad - 1, ul - 1, ub - 1;
    }
    while pad > 0
      invariant pad <= padding && padding - pad == res.Length - 1 - ub && (pad > 0 ==> padding - pad >= |ls| && ul < lm)
      invariant Unread(lb, lm, ul, ls) && forall i :: 0 <= i <= ub ==> res[i] == old(res[i])
      invariant Summed(a, b, padding - pad, 0, res[ub + 1..], 0)
    {
      PadDigits(hs, ls, padding, w, diffsign, padding - pad);
      var _ := PutDigit(res, ub, 0, a, b, 0, 0);
      pad, ub := pad - 1, ub - 1;
    }
  }

  lemma SumStart(a: seq<nat>, b: seq<nat>, digits: seq<nat>)
    requires |a| == |b| && digits == []
    ensures Summed(a, b, 0, 0, digits, 0)
  {
    assert a[|a|..] == [] && b[|b|..] == [];
  }

  /** How far the addition has come, with t digits written: what is still to be read of both operands, and
      that the next write is at or right of it. */
  ghost predicate Ahead(hb: array<nat>, hm: nat, uh: int, ha: seq<nat>, lb: array<nat>, lm: nat, ul: int, ls: seq<nat>,
                        res: array<nat>, ub: nat)
    reads hb, lb
  {
    && Unread(hb, hm, uh, ha) && Unread(lb, lm, ul, ls)
    && (res == hb ==> uh <= ub) && (res == lb && ul >= lm ==> ul <= ub)
  }

  /** Where both operands have digits. */
  method AddBoth(hb: array<nat>, hm: nat, hl: nat, ghost hs: seq<nat>, lb: array<nat>, lm: nat, ul0: int,
                 ghost ls: seq<nat>,
                 ghost padding: nat, ghost diffsign: bool, res: array<nat>, ub0: nat, carry0: nat, ghost w: nat,
                 ghost injected: nat)
    returns (ub: nat, carry: nat, uh: int, ul: int)
    requires AreDigits(hs) && AreDigits(ls) && |hs| == hl - hm + 1 > 0
    requires Ahead(hb, hm, hl, AsAdded(hs, diffsign), lb, lm, ul0, ls, res, ub0)
    requires ul0 == Max(lm - 1, lm + |ls| - 1 - padding)
    requires w == Max(|hs| + padding, |ls|) < res.Length && ub0 == res.Length - 1 - padding
    requires Summed(HiString(hs, padding, w, diffsign), LoString(ls, w), padding, carry0, res[ub0 + 1..], injected)
    modifies res
    ensures hm - 1 <= uh <= hl && lm - 1 <= ul <= ul0 && hl - uh == ub0 - ub == ul0 - ul && (uh < hm || ul < lm)
    ensures Ahead(hb, hm, uh, AsAdded(hs, diffsign), lb, lm, ul, ls, res, ub) && padding + (hl - uh) <= w
    ensures Summed(HiString(hs, padding, w, diffsign), LoString(ls, w), padding + (hl - uh), carry, res[ub + 1..],
        injected)
  {
    hide Pow, Summed, HiString, LoString, Complement;
    ghost var a, b := HiString(hs, padding, w, diffsign), LoString(ls, w);
    ub, carry, uh, ul := ub0, carry0, hl, ul0;
    while uh >= hm && ul >= lm
      invariant hm - 1 <= uh <= hl && lm - 1 <= ul <= ul0 && hl - uh == ub0 - ub == ul0 - ul
      invariant Ahead(hb, hm, uh, AsAdded(hs, diffsign), lb, lm, ul, ls, res, ub)
      invariant Summed(a, b, padding + (hl - uh), carry, res[ub + 1..], injected)
      decreases uh
    {
      ghost var t := padding + (hl - uh);
      HiDigit(hs, padding, w, diffsign, t);
      LoDigit(ls, w, t);
      carry := PutDigit(res, ub, carry + hb[uh] + lb[ul], a, b, carry, injected);
      uh, ul, ub := uh - 1, ul - 1, ub - 1;
    }
  }

  /** Left of lo only hi has digits. */
  method AddHigh(hb: array<nat>, hm: nat, hl: nat, ghost hs: seq<nat>, ghost ls: seq<nat>, ghost padding: nat,
                 ghost diffsign: bool, res: array<nat>, ub0: nat, carry0: nat, uh0: int, ghost w: nat,
                     ghost injected: nat)
    returns (ub: nat, carry: nat)
    requires AreDigits(hs) && AreDigits(ls) && |hs| == hl - hm + 1 && hm - 1 <= uh0 <= hl
    requires Unread(hb, hm, uh0, AsAdded(hs, diffsign)) && (res == hb ==> uh0 <= ub0)
    requires w == Max(|hs| + padding, |ls|) < res.Length && hl - uh0 == res.Length - 1 - padding - ub0
    requires |ls| <= padding + (hl - uh0) <= w
    requires Summed(HiString(hs, padding, w, diffsign), LoString(ls, w), padding + (hl - uh0), carry0,
        res[ub0 + 1..], injected)
    modifies res
    ensures ub == res.Length - 1 - w
    ensures Summed(HiString(hs, padding, w, diffsign), LoString(ls, w), w, carry, res[ub + 1..], injected)
  {
    hide Pow, Summed, HiString, LoString, Complement;
    ghost var a, b := HiString(hs, padding, w, diffsign), LoString(ls, w);
    ub, carry := ub0, carry0;
    var uh := uh0;
    while uh >= hm
      invariant hm - 1 <= uh <= hl && hl - uh == res.Length - 1 - padding - ub && padding + (hl - uh) >= |ls|
      invariant Unread(hb, hm, uh, AsAdded(hs, diffsign)) && (res == hb ==> uh <= ub)
      invariant Summed(a, b, padding + (hl - uh), carry, res[ub + 1..], injected)
      decreases uh
    {
      HiDigit(hs, padding, w, diffsign, padding + (hl - uh));
      LoDigit(ls, w, padding + (hl - uh));
      carry := PutDigit(res, ub, carry + hb[uh], a, b, carry, injected);
      uh, ub := uh - 1, ub - 1;
    }
  }

  /** Left of hi only lo has digits, against hi's pad digit. */
  method AddLow(lb: array<nat>, lm: nat, ul0: int, ghost hs: seq<nat>, ghost ls: seq<nat>, ghost padding: nat,
                diffsign: bool, res: array<nat>, ub0: nat, carry0: nat, ghost w: nat, ghost injected: nat)
    returns (ub: nat, carry: nat)
    requires AreDigits(hs) && AreDigits(ls) && lm <= ul0
    requires Unread(lb, lm, ul0, ls) && (res == lb ==> ul0 <= ub0)
    requires w == Max(|hs| + padding, |ls|) < res.Length
    requires |ls| - 1 - (ul0 - lm) == res.Length - 1 - ub0 >= padding + |hs|
    requires Summed(HiString(hs, padding, w, diffsign), LoString(ls, w), res.Length - 1 - ub0, carry0,
        res[ub0 + 1..], injected)
    modifies res
    ensures ub == res.Length - 1 - w
    ensures Summed(HiString(hs, padding, w, diffsign), LoString(ls, w), w, carry, res[ub + 1..], injected)
  {
    hide Pow, Summed, HiString, LoString, Complement;
    ghost var a, b := HiString(hs, padding, w, diffsign), LoString(ls, w);
    ub, carry := ub0, carry0;
    var ul := ul0;
    var hipad := if diffsign then 9 else 0;
    while ul >= lm
      invariant lm - 1 <= ul <= ul0 && |ls| - 1 - (ul - lm) == res.Length - 1 - ub >= padding + |hs|
      invariant Unread(lb, lm, ul, ls) && (res == lb ==> ul <= ub)
      invariant Summed(a, b, res.Length - 1 - ub, carry, res[ub + 1..], injected)
      decreases ul
    {
      HiDigit(hs, padding, w, diffsign, res.Length - 1 - ub);
      LoDigit(ls, w, res.Length - 1 - ub);
      carry := PutDigit(res, ub, carry + hipad + lb[ul], a, b, carry, injected);
      ul, ub := ul - 1, ub - 1;
    }
  }

  /** The whole addition, into a buffer that may be the one either operand is in. Returns the place left of
      the last digit written, and the carry out. */
  method AddStrings(hb: array<nat>, hm: nat, hl: nat, ghost hs: seq<nat>, lb: array<nat>, lm: nat, ll: nat,
                    ghost ls: seq<nat>,
                    padding: nat, diffsign: bool, res: array<nat>) returns (ub: nat, carry: nat, ghost w: nat)
    requires AreDigits(hs) && AreDigits(ls) && |hs| == hl - hm + 1 > 0 && |ls| == ll - lm + 1 > 0
    requires Unread(hb, hm, hl, AsAdded(hs, diffsign)) && Unread(lb, lm, ll, ls)
    requires Max(|hs| + padding, |ls|) < res.Length && (res == hb ==> hl + padding < res.Length)
    modifies res
    ensures w == Max(|hs| + padding, |ls|) && ub == res.Length - 1 - w && carry <= 1
    ensures AreDigits(res[ub + 1..])
    ensures carry * Pow(10, w) + Val(res[ub + 1..])
            == Val(ls) + if diffsign then Pow(10, w) - Val(hs) * Pow(10, padding) else Val(hs) * Pow(10, padding)
  {
    hide Pow, Summed, HiString, LoString, Complement;
    w := Max(|hs| + padding, |ls|);
    ghost var a, b := HiString(hs, padding, w, diffsign), LoString(ls, w);
    var ul, uh: int;
    ub, ul := CopyRight(hs, lb, lm, ll, ls, padding, diffsign, res, w);
    ghost var injected := if diffsign then Pow(10, padding) else 0;
    carry := 0;
    if diffsign {
      InjectCarry(a, b, padding, res[ub + 1..]);
      carry := 1;
    }
    ub, carry, uh, ul := AddBoth(hb, hm, hl, hs, lb, lm, ul, ls, padding, diffsign, res, ub, carry, w, injected);
    if ul < lm {
      ub, carry := AddHigh(hb, hm, hl, hs, ls, padding, diffsign, res, ub, carry, uh, w, injected);
    } else {
      ub, carry := AddLow(lb, lm, ul, hs, ls, padding, diffsign, res, ub, carry, w, injected);
    }
    SumTotal(hs, ls, padding, w, diffsign, carry, res[ub + 1..]);
  }

  lemma SumTotal(hs: seq<nat>, ls: seq<nat>, padding: nat, w: nat, diffsign: bool, carry: nat, digits: seq<nat>)
    requires AreDigits(hs) && AreDigits(ls) && |hs| + padding <= w && |ls| <= w
    requires Summed(HiString(hs, padding, w, diffsign), LoString(ls, w), w, carry, digits,
                    if diffsign then Pow(10, padding) else 0)
    ensures carry <= 1 && AreDigits(digits)
    ensures carry * Pow(10, w) + Val(digits)
            == Val(ls) + if diffsign then Pow(10, w) - Val(hs) * Pow(10, padding) else Val(hs) * Pow(10, padding)
  {
    hide Val, Pow, HiString, LoString;
    HiStringValue(hs, padding, w, diffsign);
    LoStringValue(ls, w);
    var a, b := HiString(hs, padding, w, diffsign), LoString(ls, w);
    assert a[w - w..] == a && b[w - w..] == b;
  }

  /* ---- Preparing the operands ---- */

  lemma TrimmedDigits(s: seq<nat>)
    requires Trimmed(s)
    ensures NumDigits(Val(s)) == |s|
  {
    hide Val, Pow, NumDigits;
    TrimmedSize(s);
    if |s| > 1 && Val(s) == 0 { ValLeading(s); }
    NumDigitsIs(Val(s), |s|);
  }

  /** Steps num.msd over the leading zeros. */
  method TrimLeading(num: BcdNum)
    requires num.Valid()
    modifies num`msd
    ensures num.Valid() && num.Coefficient() == old(num.Coefficient())
    ensures old(num.msd) <= num.msd && Trimmed(num.buf[num.msd..num.lsd + 1])
  {
    hide Val;
    ghost var s := num.buf[num.msd..num.lsd + 1];
    var umsd := SkipLeadingZeros(num.buf, num.msd, num.lsd);
    assert forall i :: umsd <= i <= num.lsd ==> num.buf[i] == s[i - num.msd];
    num.msd := umsd;
  }

  method ComplementFour(buf: array<nat>, at: nat)
    requires at + 4 <= buf.Length && forall i :: at <= i < at + 4 ==> buf[i] <= 9
    modifies buf
    ensures forall i :: 0 <= i < buf.Length ==> buf[i] == if at <= i < at + 4 then 9 - old(buf[i]) else old(buf[i])
  {
    buf[at], buf[at + 1], buf[at + 2], buf[at + 3] := 9 - buf[at], 9 - buf[at + 1], 9 - buf[at + 2], 9 - buf[at + 3];
  }

  /** Nines' complement of the digits msd..lsd in place, four at a time while more than four remain. */
  method ComplementDigits(buf: array<nat>, msd: nat, lsd: nat)
    requires msd <= lsd < buf.Length && AreDigits(buf[msd..lsd + 1])
    modifies buf
    ensures buf[msd..lsd + 1] == Complement(old(buf[msd..lsd + 1]))
    ensures forall i :: 0 <= i < buf.Length && !(msd <= i <= lsd) ==> buf[i] == old(buf[i])
  {
    ghost var s := buf[..];
    assert forall i :: msd <= i <= lsd ==> s[i] == buf[msd..lsd + 1][i - msd];
    var uh := msd;
    while uh < lsd - 3
      invariant msd <= uh <= lsd + 1
      invariant forall i :: 0 <= i < buf.Length ==> buf[i] == if msd <= i < uh then 9 - s[i] else s[i]
    {
      ComplementFour(buf, uh);
      uh := uh + 4;
    }
    while uh <= lsd
      invariant msd <= uh <= lsd + 1
      invariant forall i :: 0 <= i < buf.Length ==> buf[i] == if msd <= i < uh then 9 - s[i] else s[i]
    {
      buf[uh] := 9 - buf[uh];
      uh := uh + 1;
    }
  }

  /** Adds one to digits that are not all nines, so that it cannot overrun. */
  method PlusOne(buf: array<nat>, msd: nat, lsd: nat)
    requires msd <= lsd < buf.Length && AreDigits(buf[msd..lsd + 1])
    requires Val(buf[msd..lsd + 1]) < Pow(10, lsd - msd + 1) - 1
    modifies buf
    ensures AreDigits(buf[msd..lsd + 1]) && Val(buf[msd..lsd + 1]) == old(Val(buf[msd..lsd + 1])) + 1
    ensures forall i :: 0 <= i < buf.Length && !(msd <= i <= lsd) ==> buf[i] == old(buf[i])
  {
    hide Val, Pow;
    var _ := Increment(buf, msd, lsd);
  }

  /** The ten's complement of a non-zero string of digits, in place; the added one cannot overrun. */
  method Negate(buf: array<nat>, msd: nat, lsd: nat)
    requires msd <= lsd < buf.Length && AreDigits(buf[msd..lsd + 1]) && Val(buf[msd..lsd + 1]) > 0
    modifies buf
    ensures AreDigits(buf[msd..lsd + 1])
    ensures Val(buf[msd..lsd + 1]) == Pow(10, lsd - msd + 1) - old(Val(buf[msd..lsd + 1]))
    ensures forall i :: 0 <= i < buf.Length && !(msd <= i <= lsd) ==> buf[i] == old(buf[i])
  {
    hide Val, Pow;
    ValComplement(buf[msd..lsd + 1]);
    ComplementDigits(buf, msd, lsd);
    PlusOne(buf, msd, lsd);
  }

  /* ---- The reduction of a far-away operand ---- */

  /** The test for collapsing lo = c2*10^e2 to one digit below hi = c1*10^e1. */
  predicate Reduces(f: Format, c1: nat, e1: int, c2: nat, e2: int) {
    c1 != 0 && e1 != e2 && NumDigits(c1) + (e1 - e2) - NumDigits(c2) > f.p + 2
  }

  function ReducedExp(f: Format, c1: nat, e1: int): int {
    Min(e1, e1 + NumDigits(c1) - f.p) - 3
  }

  function LeadingDigit(c: nat): nat { c / Pow(10, NumDigits(c) - 1) }

  /** What the fused sum adds to hi: lo, or its first digit moved to just right of hi. */
  function AddedCoeff(f: Format, c1: nat, e1: int, c2: nat, e2: int): nat {
    if Reduces(f, c1, e1, c2, e2) then LeadingDigit(c2) else c2
  }

  function AddedExp(f: Format, c1: nat, e1: int, c2: nat, e2: int): int {
    if Reduces(f, c1, e1, c2, e2) then ReducedExp(f, c1, e1) else e2
  }

  lemma LeadingDigitIs(s: seq<nat>)
    requires Trimmed(s)
    ensures LeadingDigit(Val(s)) == s[0] == Val(s[..1])
  {
    hide Val, Pow, NumDigits;
    TrimmedDigits(s);
    CutValue(s, 1);
    assert s[..1] == [s[0]];
    ValOne(s[0]);
  }

  /** FMALEN, the length of the accumulator. */
  function FmaLength(f: Format): nat {
    (1 + (18 * f.oplen + 1) + f.p + 2 + 3) / 4 * 4
  }

  /** The most digits hi can have once padded. */
  function PaddedLength(f: Format, hilen: nat, lolen: nat): nat {
    Max(f.p + 2 + lolen, Max(hilen, f.p) + 3)
  }

  lemma PaddedFits(f: Format, hilen: nat, lolen: nat)
    requires f.Valid() && hilen <= 2 * f.p && lolen <= 2 * f.p
    ensures Max(PaddedLength(f, hilen, lolen), lolen) < FmaLength(f)
  {}

  lemma ReducesWhen(f: Format, c1: nat, e1: int, c2: nat, e2: int, hilen: nat, lolen: nat)
    requires c1 != 0 && hilen == NumDigits(c1) && lolen == NumDigits(c2)
    ensures ReducedExp(f, c1, e1) == Min(e1, e1 + hilen - f.p) - 3
    ensures if e1 != e2 && hilen + (e1 - e2) - lolen > f.p + 2
      then AddedCoeff(f, c1, e1, c2, e2) == LeadingDigit(c2) && AddedExp(f, c1, e1, c2, e2) == ReducedExp(f, c1, e1)
      else AddedCoeff(f, c1, e1, c2, e2) == c2 && AddedExp(f, c1, e1, c2, e2) == e2
  {
    hide NumDigits, LeadingDigit;
  }

  /** Collapses lo when it is far away. Returns the zeros that align hi with lo. */
  method Reduce(f: Format, hi: BcdNum, lo: BcdNum) returns (padding: nat)
    requires f.Valid() && hi != lo && hi.Valid() && lo.Valid() && hi.exponent >= lo.exponent
    requires Trimmed(hi.buf[hi.msd..hi.lsd + 1]) && Trimmed(lo.buf[lo.msd..lo.lsd + 1]) && hi.Coefficient() != 0
    requires hi.lsd - hi.msd < 2 * f.p && lo.lsd - lo.msd < 2 * f.p
    modifies lo`lsd, lo`exponent
    ensures padding == hi.exponent - lo.exponent && lo.Valid()
    ensures lo.Coefficient() == old(AddedCoeff(f, hi.Coefficient(), hi.exponent, lo.Coefficient(), lo.exponent))
    ensures lo.exponent == old(AddedExp(f, hi.Coefficient(), hi.exponent, lo.Coefficient(), lo.exponent))
    ensures Max(hi.lsd - hi.msd + 1 + padding, lo.lsd - lo.msd + 1) < FmaLength(f)
    ensures hi.lsd - hi.msd + 1 + padding <= PaddedLength(f, hi.lsd - hi.msd + 1, old(lo.lsd - lo.msd + 1))
  {
    hide Val, NumDigits, LeadingDigit, FmaLength, Pow, Trimmed, AddedCoeff, AddedExp, ReducedExp;
    var hilen, lolen := hi.lsd - hi.msd + 1, lo.lsd - lo.msd + 1;
    PaddedFits(f, hilen, lolen);
    TrimmedDigits(hi.buf[hi.msd..hi.lsd + 1]);
    TrimmedDigits(lo.buf[lo.msd..lo.lsd + 1]);
    ReducesWhen(f, hi.Coefficient(), hi.exponent, lo.Coefficient(), lo.exponent, hilen, lolen);
    padding := hi.exponent - lo.exponent;
    if padding != 0 {
      if hilen + padding - lolen > f.p + 2 {
        var newexp := Min(hi.exponent, hi.exponent + hilen - f.p) - 3;
        LeadingDigitIs(lo.buf[lo.msd..lo.lsd + 1]);
        assert lo.buf[lo.msd..lo.lsd + 1][..1] == lo.buf[lo.msd..lo.msd + 1];
        lo.lsd := lo.msd;
        lo.exponent := newexp;
        padding := hi.exponent - lo.exponent;
      }
    }
  }

  /* ---- The sum, its sign and its final rounding ---- */

  /** SumOutcome when hi, the operand of higher exponent, is padding digits above lo. */
  lemma SumAligned(f: Format, mode: Mode, n1: bool, c1: nat, e1: int, n2: bool, c2: nat, e2: int, x: nat)
    requires f.p > 0 && e2 <= e1 && x == c1 * Pow(10, e1 - e2)
    ensures SumOutcome(f, mode, n1, c1, e1, n2, c2, e2) ==
      if n1 == n2 then RoundScaled(f, mode, n1, c2 + x, e2)
      else if x > c2 then RoundScaled(f, mode, n1, x - c2, e2)
      else if c2 > x then RoundScaled(f, mode, n2, c2 - x, e2)
      else RoundScaled(f, mode, mode == Floor, 0, e2)
  {
    hide RoundScaled, Pow;
    AlignedSelf(c2, e2);
  }

  /** After a subtraction: a borrow is complemented away; otherwise the difference is stripped and an exact
      zero gets its sign. */
  method SettleDifference(lo: BcdNum, carry: nat, w: nat, hineg: bool, round: Mode, ghost x: nat, ghost c2: nat)
    requires lo.Valid() && w == lo.lsd - lo.msd + 1 && carry <= 1 && x < Pow(10, w)
    requires carry * Pow(10, w) + lo.Coefficient() == c2 + Pow(10, w) - x
    modifies lo`msd, lo`neg, lo.buf
    ensures lo.Valid()
    ensures lo.neg == if x > c2 then hineg else if c2 > x then old(lo.neg) else round == Floor
    ensures lo.Coefficient() == if x > c2 then x - c2 else c2 - x
  {
    hide Val, Pow;
    ValBound(lo.buf[lo.msd..lo.lsd + 1]);
    assert 1 * Pow(10, w) == Pow(10, w) && 0 * Pow(10, w) == 0;
    if carry == 0 {
      lo.neg := hineg;
      Negate(lo.buf, lo.msd, lo.lsd);
    } else {
      TrimLeading(lo);
      TrimmedSize(lo.buf[lo.msd..lo.lsd + 1]);
      if lo.buf[lo.msd] == 0 {
        lo.neg := round == Floor;
      }
    }
  }

  /** After the addition: a carry out of a sum becomes a leading one, and a difference is settled. */
  method SettleSum(lo: BcdNum, ub: nat, carry: nat, w: nat, diffsign: bool, hineg: bool, round: Mode, ghost x: nat,
                   ghost c2: nat)
    requires ub < lo.buf.Length && w == lo.buf.Length - 1 - ub > 0 && carry <= 1 && AreDigits(lo.buf[ub + 1..])
    requires carry * Pow(10, w) + Val(lo.buf[ub + 1..]) == c2 + if diffsign then Pow(10, w) - x else x
    requires x < Pow(10, w)
    requires lo.msd == ub + 1 && lo.lsd == lo.buf.Length - 1
    modifies lo`msd, lo`neg, lo.buf
    ensures lo.Valid()
    ensures lo.neg ==
      if !diffsign then old(lo.neg) else if x > c2 then hineg else if c2 > x then old(lo.neg) else round == Floor
    ensures lo.Coefficient() == if !diffsign then c2 + x else if x > c2 then x - c2 else c2 - x
  {
    hide Val, Pow;
    ghost var s := lo.buf[ub + 1..];
    assert lo.buf[lo.msd..lo.lsd + 1] == s;
    if diffsign {
      SettleDifference(lo, carry, w, hineg, round, x, c2);
    } else if carry != 0 {
      lo.buf[ub] := 1;
      lo.msd := lo.msd - 1;
      assert lo.buf[lo.msd..lo.lsd + 1] == [1] + s;
      ValPrepend(1, s);
    } else {
      assert 0 * Pow(10, w) == 0;
    }
  }

  lemma SliceUnread(buf: array<nat>, m: nat, l: nat, s: seq<nat>)
    requires m <= l < buf.Length && buf[m..l + 1] == s
    ensures Unread(buf, m, l, s)
  {
    assert forall i :: m <= i <= l ==> buf[i] == buf[m..l + 1][i - m];
  }

  /** The digits of hi, complemented if the signs differ, and lo, added in the accumulator that holds one of
      them: if that is hi, its last digit must be at or left of the place it is aligned with. */
  method AddInPlace(hi: BcdNum, lo: BcdNum, acc: array<nat>, padding: nat, diffsign: bool) returns (ub: nat, carry: nat)
    requires hi != lo && hi.buf != lo.buf && hi.Valid() && lo.Valid() && (acc == hi.buf || acc == lo.buf)
    requires Max(hi.lsd - hi.msd + 1 + padding, lo.lsd - lo.msd + 1) < acc.Length
    requires acc == hi.buf ==> hi.lsd + padding < acc.Length
    modifies hi.buf, lo.buf
    ensures ub < acc.Length - 1 && carry <= 1 && AreDigits(acc[ub + 1..])
    ensures var x, c2, all := old(hi.Coefficient()) * Pow(10, padding), old(lo.Coefficient()),
        Pow(10, acc.Length - 1 - ub);
      x < all && carry * all + Val(acc[ub + 1..]) == c2 + if diffsign then all - x else x
  {
    hide Val, Pow, Unread, Complement;
    ghost var hs, ls := hi.buf[hi.msd..hi.lsd + 1], lo.buf[lo.msd..lo.lsd + 1];
    if diffsign { ComplementDigits(hi.buf, hi.msd, hi.lsd); }
    assert lo.buf[lo.msd..lo.lsd + 1] == ls;
    SliceUnread(hi.buf, hi.msd, hi.lsd, AsAdded(hs, diffsign));
    SliceUnread(lo.buf, lo.msd, lo.lsd, ls);
    ghost var w;
    ub, carry, w := AddStrings(hi.buf, hi.msd, hi.lsd, hs, lo.buf, lo.msd, lo.lsd, ls, padding, diffsign, acc);
    HiFits(hs, padding, w);
  }

  /** The sum of hi and lo, in the accumulator. */
  method AddOperands(hi: BcdNum, lo: BcdNum, acc: array<nat>, padding: nat, diffsign: bool, round: Mode)
    requires hi != lo && hi.buf != lo.buf && hi.Valid() && lo.Valid() && (acc == hi.buf || acc == lo.buf)
    requires Max(hi.lsd - hi.msd + 1 + padding, lo.lsd - lo.msd + 1) < acc.Length
    requires acc == hi.buf ==> hi.lsd + padding < acc.Length
    modifies hi.buf, lo.buf, lo`buf, lo`msd, lo`lsd, lo`neg
    ensures lo.Valid() && lo.buf == acc
    ensures var x, c2 := old(hi.Coefficient()) * Pow(10, padding), old(lo.Coefficient());
      && lo.Coefficient() == (if !diffsign then c2 + x else if x > c2 then x - c2 else c2 - x)
      && lo.neg ==
        (if !diffsign then old(lo.neg) else if x > c2 then hi.neg else if c2 > x then old(lo.neg) else round == Floor)
  {
    hide Val, Pow;
    ghost var x, c2 := hi.Coefficient() * Pow(10, padding), lo.Coefficient();
    var ub, carry := AddInPlace(hi, lo, acc, padding, diffsign);
    lo.buf, lo.msd, lo.lsd := acc, ub + 1, acc.Length - 1;
    SettleSum(lo, ub, carry, acc.Length - 1 - ub, diffsign, hi.neg, round, x, c2);
  }

  /** The product in the accumulator, when it is hi: laid out without leading zero units, it ends far enough
      to the left for all that padding can be. */
  ghost predicate Placed(f: Format, hi: BcdNum, lo: BcdNum, acc: array<nat>)
    reads hi, hi.buf, lo, lo.buf
    requires hi.Valid() && lo.Valid()
  {
    && acc.Length == FmaLength(f) && (acc == hi.buf || acc == lo.buf)
    && (acc == hi.buf ==> Fills(hi.Coefficient(), 1, hi.lsd) && lo.Coefficient() < Pow(10, f.p))
  }

  lemma RoomRight(f: Format, c: nat, lsd: nat, hilen: nat, lolen: nat)
    requires f.Valid() && Fills(c, 1, lsd) && NumDigits(c) == hilen <= 2 * f.p && lolen <= f.p
    ensures lsd - hilen + PaddedLength(f, hilen, lolen) < FmaLength(f)
  {
    hide Pow;
    NumDigitsBounds(c);
    if lsd >= 10 && NumDigits(c) <= lsd - 9 { PowMono(10, NumDigits(c), lsd - 9); }
    hide NumDigits;
  }

  lemma OperandsFit(f: Format, hi: BcdNum, lo: BcdNum, acc: array<nat>)
    requires f.Valid() && hi.Valid() && lo.Valid() && Placed(f, hi, lo, acc)
    requires Trimmed(hi.buf[hi.msd..hi.lsd + 1]) && Trimmed(lo.buf[lo.msd..lo.lsd + 1])
    requires hi.Coefficient() < Pow(10, 2 * f.p) && lo.Coefficient() < Pow(10, 2 * f.p)
    ensures hi.lsd - hi.msd < 2 * f.p && lo.lsd - lo.msd < 2 * f.p
    ensures acc.Length == FmaLength(f) && (acc == hi.buf || acc == lo.buf)
    ensures acc == hi.buf ==>
      hi.lsd - (hi.lsd - hi.msd + 1) + PaddedLength(f, hi.lsd - hi.msd + 1, lo.lsd - lo.msd + 1) < FmaLength(f)
  {
    hide Val, Pow, Trimmed, NumDigits, Fills, FmaLength;
    TrimmedFits(f.p, hi.buf[hi.msd..hi.lsd + 1]);
    TrimmedFits(f.p, lo.buf[lo.msd..lo.lsd + 1]);
    TrimmedDigits(hi.buf[hi.msd..hi.lsd + 1]);
    if acc == hi.buf { RoomRight(f, hi.Coefficient(), hi.lsd, hi.lsd - hi.msd + 1, lo.lsd - lo.msd + 1); }
  }

  /** The sum of two unpacked operands, hi having the higher exponent (or the same one); one of them is in
      the accumulator, where the sum is built. */
  method FusedSum(f: Format, hi: BcdNum, lo: BcdNum, acc: array<nat>, ctx: DecContext) returns (df: Number)
    requires f.Valid() && hi != lo && hi.buf != lo.buf && hi.Valid() && lo.Valid() && hi.exponent >= lo.exponent
    requires hi.Coefficient() < Pow(10, 2 * f.p) && lo.Coefficient() < Pow(10, 2 * f.p) && Placed(f, hi, lo, acc)
    modifies hi, lo, hi.buf, lo.buf, ctx`status
    ensures var o := old(SumOutcome(f, ctx.round, hi.neg, hi.Coefficient(), hi.exponent, lo.neg,
        AddedCoeff(f, hi.Coefficient(), hi.exponent, lo.Coefficient(), lo.exponent),
        AddedExp(f, hi.Coefficient(), hi.exponent, lo.Coefficient(), lo.exponent)));
      df == o.num && ctx.status == old(ctx.status) + o.raised
  {
    hide Val, Pow, RoundScaled, SumOutcome, AddedCoeff, AddedExp, Fills, FmaLength;
    TrimLeading(hi);
    TrimLeading(lo);
    TrimmedSize(hi.buf[hi.msd..hi.lsd + 1]);
    TrimmedSize(lo.buf[lo.msd..lo.lsd + 1]);
    if hi.buf[hi.msd] == 0 {
      SumWithZero(f, ctx.round, hi.neg, hi.exponent, lo.neg, lo.Coefficient(), lo.exponent);
      if hi.neg != lo.neg && lo.buf[lo.msd] == 0 {
        lo.neg := ctx.round == Floor;
      }
      df := Finalize(f, lo, ctx);
    } else {
      df := FusedNonZero(f, hi, lo, acc, ctx);
    }
  }

  /** As FusedSum, for minimal operands of which hi is not zero. */
  method FusedNonZero(f: Format, hi: BcdNum, lo: BcdNum, acc: array<nat>, ctx: DecContext) returns (df: Number)
    requires f.Valid() && hi != lo && hi.buf != lo.buf && hi.Valid() && lo.Valid() && hi.exponent >= lo.exponent
    requires Trimmed(hi.buf[hi.msd..hi.lsd + 1]) && Trimmed(lo.buf[lo.msd..lo.lsd + 1]) && hi.Coefficient() != 0
    requires hi.Coefficient() < Pow(10, 2 * f.p) && lo.Coefficient() < Pow(10, 2 * f.p) && Placed(f, hi, lo, acc)
    modifies hi, lo, hi.buf, lo.buf, ctx`status
    ensures var o := old(SumOutcome(f, ctx.round, hi.neg, hi.Coefficient(), hi.exponent, lo.neg,
        AddedCoeff(f, hi.Coefficient(), hi.exponent, lo.Coefficient(), lo.exponent),
        AddedExp(f, hi.Coefficient(), hi.exponent, lo.Coefficient(), lo.exponent)));
      df == o.num && ctx.status == old(ctx.status) + o.raised
  {
    hide Val, Pow, RoundScaled, SumOutcome, AddedCoeff, AddedExp, FmaLength, Trimmed, PaddedLength, AreDigits;
    OperandsFit(f, hi, lo, acc);
    hide Placed;
    var padding := Reduce(f, hi, lo);
    df := SumPadded(f, hi, lo, acc, padding, ctx);
  }

  /** The operands added and the sum rounded, once they are known to fit. */
  method SumPadded(f: Format, hi: BcdNum, lo: BcdNum, acc: array<nat>, padding: nat, ctx: DecContext)
    returns (df: Number)
    requires f.Valid() && hi != lo && hi.buf != lo.buf && hi.Valid() && lo.Valid()
    requires acc == hi.buf || acc == lo.buf
    requires padding == hi.exponent - lo.exponent
    requires Max(hi.lsd - hi.msd + 1 + padding, lo.lsd - lo.msd + 1) < acc.Length
    requires acc == hi.buf ==> hi.lsd + padding < acc.Length
    modifies hi, lo, hi.buf, lo.buf, ctx`status
    ensures var o := old(SumOutcome(f, ctx.round, hi.neg, hi.Coefficient(), hi.exponent, lo.neg, lo.Coefficient(),
                                    lo.exponent));
      df == o.num && ctx.status == old(ctx.status) + o.raised
  {
    hide Val, Pow, RoundScaled, SumOutcome;
    ghost var mode, n1, n2, c1, e1 := ctx.round, hi.neg, lo.neg, hi.Coefficient(), hi.exponent;
    ghost var c2, e2 := lo.Coefficient(), lo.exponent;
    AddOperands(hi, lo, acc, padding, hi.neg != lo.neg, ctx.round);
    SumAligned(f, mode, n1, c1, e1, n2, c2, e2, c1 * Pow(10, padding));
    df := Finalize(f, lo, ctx);
  }

  lemma SumWithZero(f: Format, mode: Mode, n1: bool, e1: int, n2: bool, c2: nat, e2: int)
    requires f.p > 0 && e2 <= e1
    ensures AddedCoeff(f, 0, e1, c2, e2) == c2 && AddedExp(f, 0, e1, c2, e2) == e2
    ensures SumOutcome(f, mode, n1, 0, e1, n2, c2, e2)
      == RoundScaled(f, mode, if n1 != n2 && c2 == 0 then mode == Floor else n2, c2, e2)
  {
    hide RoundScaled, Pow;
    AlignedSelf(c2, e2);
    assert 0 * Pow(10, e1 - e2) == 0;
  }

  lemma TrimmedFits(p: nat, s: seq<nat>)
    requires Trimmed(s) && p > 0
    ensures Val(s) < Pow(10, p) ==> |s| <= p
    ensures Val(s) < Pow(10, 2 * p) ==> |s| <= 2 * p
  {
    hide Val, Pow;
    TrimmedSize(s);
    if |s| > p {
      ValLeading(s);
      PowMono(10, p, |s| - 1);
      if |s| > 2 * p { PowMono(10, 2 * p, |s| - 1); }
    }
  }

  lemma HiFits(s: seq<nat>, padding: nat, w: nat)
    requires AreDigits(s) && |s| + padding <= w
    ensures Val(s) * Pow(10, padding) < Pow(10, w)
  {
    hide Val, Pow;
    ValBound(s);
    PowAdd(10, |s|, padding);
    MulStrict(Val(s), Pow(10, |s|), Pow(10, padding));
    PowMono(10, |s| + padding, w);
  }

  /* ---- When the reduction is harmless ---- */

  /** lo is collapsed although it still overlaps hi's own digits. */
  predicate CollapsesOverlap(f: Format, c1: nat, e1: int, c2: nat, e2: int) {
    Reduces(f, c1, e1, c2, e2) && e1 - e2 < NumDigits(c2)
  }

  /** lo is collapsed although, with its own digits, the sum would have left hi's last half unit; and the
      sums are not both out of range. */
  ghost predicate LosesCarry(f: Format, same: bool, c1: nat, e1: int, c2: nat, e2: int)
    requires e2 <= e1
  {
    CollapsesOverlap(f, c1, e1, c2, e2) && Crosses(f, same, c1, e1, c2, e2) && Reachable(f, same, c1, e1, c2, e2)
  }

  /** As LosesCarry, and the mode tells the two sides of the half unit apart; neg is hi's sign. */
  ghost predicate LosesCarryIn(f: Format, mode: Mode, neg: bool, same: bool, c1: nat, e1: int, c2: nat, e2: int)
    requires f.Valid() && e2 <= e1
  {
    LosesCarry(f, same, c1, e1, c2, e2) && Tells(f, mode, neg, same, c1, e1, c2, e2)
  }

  /** c2 * 10^e2 < 10^g, read off the number of digits. */
  lemma DigitsBelow(c2: nat, e2: int, g: int)
    requires NumDigits(c2) + e2 <= g
    ensures Below(c2, e2, 1, g)
  {
    hide Pow, NumDigits;
    var m := Min(e2, g);
    NumDigitsBounds(c2);
    MulStrict(c2, Pow(10, NumDigits(c2)), Pow(10, e2 - m));
    PowAdd(10, NumDigits(c2), e2 - m);
    PowMono(10, NumDigits(c2) + (e2 - m), g - m);
  }

  /** hi seen at 10^g has more digits than the format. */
  lemma DigitsAbove(f: Format, c1: nat, e1: int, g: int)
    requires f.Valid() && c1 > 0 && g <= e1 && NumDigits(c1) + e1 - g >= f.p + 2
    ensures Aligned(c1, e1, g) >= Pow(10, f.p) + 1
  {
    hide Pow, NumDigits, Aligned;
    AlignedOf(c1, e1, g);
    NumDigitsBounds(c1);
    ShiftedPower(c1, NumDigits(c1) - 1, e1 - g);
    PowMono(10, f.p, f.p + 1);
    PowMono(10, f.p + 1, NumDigits(c1) - 1 + (e1 - g));
    hide *;
  }

  lemma ShiftedPower(c: nat, n: nat, m: nat)
    requires Pow(10, n) <= c
    ensures Pow(10, n + m) <= c * Pow(10, m)
  {
    hide Pow;
    PowAdd(10, n, m);
    MulMono(Pow(10, n), c, Pow(10, m));
  }

  lemma LeadingDigitBounds(c: nat)
    ensures LeadingDigit(c) < 10 && (LeadingDigit(c) == 0 <==> c == 0)
    ensures NumDigits(LeadingDigit(c)) == 1
  {
    hide Pow, NumDigits;
    var n := NumDigits(c);
    NumDigitsBounds(c);
    assert Pow(10, n) == 10 * Pow(10, n - 1) by { PowAdd(10, 1, n - 1); SmallPowers(); }
    DivLt(c, Pow(10, n - 1), 10);
    if c > 0 { DivGe(c, Pow(10, n - 1), 1); } else { DivModUnique(0, Pow(10, n - 1), 0, 0); }
    SmallDigits(LeadingDigit(c));
  }

  lemma SmallDigits(c: nat)
    requires c < 10
    ensures NumDigits(c) == 1
  {}

  /** Right of hi's last digit, the substituted digit changes neither result nor flags. */
  lemma FarHarmless(f: Format, mode: Mode, n1: bool, c1: nat, e1: int, n2: bool, c2: nat, e2: int)
    requires f.Valid() && e2 <= e1 && Reduces(f, c1, e1, c2, e2) && !CollapsesOverlap(f, c1, e1, c2, e2)
    ensures SumOutcome(f, mode, n1, c1, e1, n2, LeadingDigit(c2), ReducedExp(f, c1, e1))
         == SumOutcome(f, mode, n1, c1, e1, n2, c2, e2)
  {
    hide Pow, NumDigits, SumOutcome, Below, Aligned, LeadingDigit;
    var c3, e3 := LeadingDigit(c2), ReducedExp(f, c1, e1);
    LeadingDigitBounds(c2);
    if c2 == 0 {
      NumDigitsBounds(c1);
      ReplaceFarZero(f, mode, n1, c1, e1, n2, e2, e3, NumDigits(c1));
    } else {
      var g := Min(e1, e1 + NumDigits(c1) - f.p - 2);
      DigitsBelow(c2, e2, g);
      DigitsBelow(c3, e3, g);
      DigitsAbove(f, c1, e1, g);
      ReplaceFar(f, mode, n1, c1, e1, n2, c2, e2, c3, e3, 1, g);
    }
  }

  /** A collapsed lo is small against hi, even where it overlaps. */
  lemma OverlapIsSlight(f: Format, c1: nat, e1: int, c2: nat, e2: int)
    requires f.Valid() && e2 <= e1 && CollapsesOverlap(f, c1, e1, c2, e2)
    ensures Slight(f, c1, e1, c2, e2) && c1 > 0 && ReducedExp(f, c1, e1) == e1 - 3
  {
    assert c2 > 0;
    hide Pow, NumDigits, HalfUnit, HalfPlace;
    var n, m, pad := NumDigits(c1), NumDigits(c2), e1 - e2;
    NumDigitsBounds(c1);
    NumDigitsBounds(c2);
    PowAdd(10, n - 1, pad);
    MulMono(Pow(10, n - 1), c1, Pow(10, pad));
    PowMono(10, m, n - 1 + pad);
    HalfUnits(f, c1, e1);
    var h := HalfPlace(f, c1, e1);
    HalfPlaceAtLeast(f, c1, e1);
    PowMono(10, m, h - 1 + pad);
    PowAdd(10, h - 1, pad);
    MulStrict(1, 5, Pow(10, h - 1) * Pow(10, pad));
    MulAssoc(5, Pow(10, h - 1), Pow(10, pad));
  }

  lemma HalfPlaceAtLeast(f: Format, c: nat, e: int)
    ensures HalfPlace(f, c, e) >= NumDigits(c) - 1 - f.p
  {}

  /** Over hi's digits the substituted digit is harmless in one given mode exactly when the sum would not have
      left hi's last half unit, or the mode does not tell, or the sum is out of range. */
  lemma OverlapInMode(f: Format, mode: Mode, n1: bool, c1: nat, e1: int, n2: bool, c2: nat, e2: int)
    requires f.Valid() && e2 <= e1 && CollapsesOverlap(f, c1, e1, c2, e2)
    ensures SumOutcome(f, mode, n1, c1, e1, n2, LeadingDigit(c2), ReducedExp(f, c1, e1))
         == SumOutcome(f, mode, n1, c1, e1, n2, c2, e2)
      <==> !LosesCarryIn(f, mode, n1, n1 == n2, c1, e1, c2, e2)
  {
    OverlapIsSlight(f, c1, e1, c2, e2);
    LeadingDigitBounds(c2);
    assert c2 > 0;
    hide Pow, NumDigits, SumOutcome, Crosses, Reachable, Tells, LeadingDigit, Slight, ReducedExp;
    ReplaceInMode(f, mode, n1, c1, e1, n2, c2, e2, LeadingDigit(c2));
  }

  /** The reduction changes nothing in one given mode exactly when no carry or borrow is lost that the mode
      tells. */
  lemma ReductionInMode(f: Format, mode: Mode, n1: bool, c1: nat, e1: int, n2: bool, c2: nat, e2: int)
    requires f.Valid() && e2 <= e1
    ensures SumOutcome(f, mode, n1, c1, e1, n2, AddedCoeff(f, c1, e1, c2, e2), AddedExp(f, c1, e1, c2, e2))
         == SumOutcome(f, mode, n1, c1, e1, n2, c2, e2)
      <==> !LosesCarryIn(f, mode, n1, n1 == n2, c1, e1, c2, e2)
  {
    hide Pow, NumDigits, SumOutcome, LeadingDigit, ReducedExp, Crosses, Reachable, Tells;
    if CollapsesOverlap(f, c1, e1, c2, e2) {
      OverlapInMode(f, mode, n1, c1, e1, n2, c2, e2);
    } else if Reduces(f, c1, e1, c2, e2) {
      FarHarmless(f, mode, n1, c1, e1, n2, c2, e2);
    }
  }

  /** A lost carry or borrow shows in some mode. */
  lemma LostInSomeMode(f: Format, neg: bool, same: bool, c1: nat, e1: int, c2: nat, e2: int)
    requires f.Valid() && e2 <= e1
    ensures (exists mode :: LosesCarryIn(f, mode, neg, same, c1, e1, c2, e2)) <==> LosesCarry(f, same, c1, e1, c2, e2)
  {
    hide Crosses, Reachable, Tells, CollapsesOverlap, Slight;
    if LosesCarry(f, same, c1, e1, c2, e2) {
      OverlapIsSlight(f, c1, e1, c2, e2);
      var mode := ToldInSomeMode(f, neg, same, c1, e1, c2, e2);
      assert LosesCarryIn(f, mode, neg, same, c1, e1, c2, e2);
    }
  }

  /** What decFloatFMA computes from a product and an addend, whichever has the higher exponent. */
  function FmaOutcome(f: Format, mode: Mode, np: bool, cp: nat, ep: int, nf: bool, cf: nat, ef: int): Outcome
    requires f.p > 0
  {
    if ep >= ef
    then SumOutcome(f, mode, np, cp, ep, nf, AddedCoeff(f, cp, ep, cf, ef), AddedExp(f, cp, ep, cf, ef))
    else SumOutcome(f, mode, nf, cf, ef, np, AddedCoeff(f, cf, ef, cp, ep), AddedExp(f, cf, ef, cp, ep))
  }

  predicate FmaOverlaps(f: Format, cp: nat, ep: int, cf: nat, ef: int) {
    if ep >= ef then CollapsesOverlap(f, cp, ep, cf, ef) else CollapsesOverlap(f, cf, ef, cp, ep)
  }

  /** Product or addend is collapsed and a carry or borrow is lost with it. */
  ghost predicate FmaLosesCarry(f: Format, np: bool, cp: nat, ep: int, nf: bool, cf: nat, ef: int) {
    if ep >= ef then LosesCarry(f, np == nf, cp, ep, cf, ef) else LosesCarry(f, np == nf, cf, ef, cp, ep)
  }

  /** The same, where the mode tells. */
  ghost predicate FmaLosesCarryIn(f: Format, mode: Mode, np: bool, cp: nat, ep: int, nf: bool, cf: nat, ef: int)
    requires f.Valid()
  {
    if ep >= ef then LosesCarryIn(f, mode, np, np == nf, cp, ep, cf, ef)
    else LosesCarryIn(f, mode, nf, np == nf, cf, ef, cp, ep)
  }

  lemma NoOverlapNoLoss(f: Format, mode: Mode, np: bool, cp: nat, ep: int, nf: bool, cf: nat, ef: int)
    requires f.Valid() && !FmaOverlaps(f, cp, ep, cf, ef)
    ensures !FmaLosesCarryIn(f, mode, np, cp, ep, nf, cf, ef)
  {}

  /** The fused result is, in the mode given, the exact sum of product and addend rounded once, exactly when no
      carry or borrow is lost that the mode tells. */
  lemma FmaInMode(f: Format, mode: Mode, np: bool, cp: nat, ep: int, nf: bool, cf: nat, ef: int)
    requires f.Valid()
    ensures FmaOutcome(f, mode, np, cp, ep, nf, cf, ef) == SumOutcome(f, mode, np, cp, ep, nf, cf, ef)
      <==> !FmaLosesCarryIn(f, mode, np, cp, ep, nf, cf, ef)
  {
    hide Pow, NumDigits, SumOutcome, AddedCoeff, AddedExp, LosesCarryIn;
    if ep >= ef {
      ReductionInMode(f, mode, np, cp, ep, nf, cf, ef);
    } else {
      ReductionInMode(f, mode, nf, cf, ef, np, cp, ep);
      SumCommutes(f, mode, np, cp, ep, nf, cf, ef);
    }
  }

  /** It is that in every mode exactly when no carry or borrow is lost at all. */
  lemma FmaRoundsOnce(f: Format, np: bool, cp: nat, ep: int, nf: bool, cf: nat, ef: int)
    requires f.Valid()
    ensures (forall mode :: FmaOutcome(f, mode, np, cp, ep, nf, cf, ef) == SumOutcome(f, mode, np, cp, ep, nf, cf, ef))
      <==> !FmaLosesCarry(f, np, cp, ep, nf, cf, ef)
  {
    hide Pow, NumDigits, SumOutcome, FmaOutcome, LosesCarry, LosesCarryIn;
    forall mode ensures FmaOutcome(f, mode, np, cp, ep, nf, cf, ef) == SumOutcome(f, mode, np, cp, ep, nf, cf, ef)
                   <==> !FmaLosesCarryIn(f, mode, np, cp, ep, nf, cf, ef) {
      FmaInMode(f, mode, np, cp, ep, nf, cf, ef);
    }
    FmaLostInSomeMode(f, np, cp, ep, nf, cf, ef);
    hide FmaLosesCarry, FmaLosesCarryIn;
    if FmaLosesCarry(f, np, cp, ep, nf, cf, ef) {
      var mode :| FmaLosesCarryIn(f, mode, np, cp, ep, nf, cf, ef);
      assert FmaOutcome(f, mode, np, cp, ep, nf, cf, ef) != SumOutcome(f, mode, np, cp, ep, nf, cf, ef);
    }
  }

  lemma FmaLostInSomeMode(f: Format, np: bool, cp: nat, ep: int, nf: bool, cf: nat, ef: int)
    requires f.Valid()
    ensures (exists mode :: FmaLosesCarryIn(f, mode, np, cp, ep, nf, cf, ef))
      <==> FmaLosesCarry(f, np, cp, ep, nf, cf, ef)
  {
    hide LosesCarry, LosesCarryIn;
    if ep >= ef {
      LostInSomeMode(f, np, np == nf, cp, ep, cf, ef);
      if LosesCarry(f, np == nf, cp, ep, cf, ef) {
        var mode :| LosesCarryIn(f, mode, np, np == nf, cp, ep, cf, ef);
        assert FmaLosesCarryIn(f, mode, np, cp, ep, nf, cf, ef);
      }
    } else {
      LostInSomeMode(f, nf, np == nf, cf, ef, cp, ep);
      if LosesCarry(f, np == nf, cf, ef, cp, ep) {
        var mode :| LosesCarryIn(f, mode, nf, np == nf, cf, ef, cp, ep);
        assert FmaLosesCarryIn(f, mode, np, cp, ep, nf, cf, ef);
      }
    }
  }

  /** An operand's coefficient as BCD. */
  method Unpack(f: Format, x: Number) returns (num: BcdNum)
    requires f.Valid() && Holds(f, x)
    ensures fresh(num) && fresh(num.buf) && num.Valid()
    ensures num.Coefficient() == x.coeff && num.neg == x.neg && num.exponent == x.exp
  {
    hide Val, Pow, DecimalDigits;
    var s := DecimalDigits(x.coeff, f.p);
    DecimalDigitsValue(x.coeff, f.p);
    var coe := new nat[f.p](i requires 0 <= i < f.p => s[i]);
    assert coe[0..f.p - 1 + 1] == s;
    num := new BcdNum(coe, 0, f.p - 1, x.neg, x.exp);
  }

  /** Special operands: the product is tried first, as an infinity or not, then the addend. */
  method FmaSpecial(l: Number, r: Number, a: Number, ctx: DecContext) returns (df: Number)
    requires !l.Finite? || !r.Finite? || !a.Finite?
    modifies ctx`status
    ensures l.NaN? || r.NaN? || a.NaN? ==>
      df == NaN(false) && ctx.status == old(ctx.status) + NaNRaises(l, r) + NaNRaises(a, a)
    ensures !l.NaN? && !r.NaN? && !a.NaN? ==>
      var product := l.Infinite? || r.Infinite?;
      var sign := SignOf(l) != SignOf(r);
      if product && (IsZero(l) || IsZero(r) || (a.Infinite? && SignOf(a) != sign))
      then df == NaN(false) && ctx.status == old(ctx.status) + {InvalidOperation}
      else df == Infinite(if product then sign else SignOf(a)) && ctx.status == old(ctx.status)
  {
    if l == NaN(true) || r == NaN(true) { df := PropagateNaN(l, r, ctx); return; }
    if a == NaN(true) { df := PropagateNaN(a, a, ctx); return; }
    if l.NaN? || r.NaN? { df := PropagateNaN(l, r, ctx); return; }
    if a.NaN? { df := PropagateNaN(a, a, ctx); return; }
    var proxy := Finite(false, 0, 0);
    if (l.Infinite? && IsZero(r)) || (!l.Infinite? && r.Infinite? && IsZero(l)) {
      ctx.Raise({InvalidOperation});
      return NaN(false);
    }
    var sign := SignOf(l) != SignOf(r);
    if l.Infinite? || r.Infinite? { proxy := Infinite(sign); }
    if !a.Infinite? { return proxy; }
    if !proxy.Infinite? { return Infinite(a.neg); }
    if a.neg != sign {
      ctx.Raise({InvalidOperation});
      return NaN(false);
    }
    return proxy;
  }

  /** The product 3999999999999999 * 9000000000000001, of 32 digits. */
  const PRODUCT: nat := 35999999999999994999999999999999

  /** Where a carry is lost the result can be wrong. In decDouble, to nearest, PRODUCT plus 9.9 (held
      as 99E-1) comes out one unit low; rounding down does not show it. */
  lemma OverlapMissesCarry()
    ensures PRODUCT == 3999999999999999 * 9000000000000001 && FmaLosesCarry(DOUBLE, false, PRODUCT, 0, false, 99, -1)
    ensures FmaLosesCarryIn(DOUBLE, HalfEven, false, PRODUCT, 0, false, 99, -1)
    ensures !FmaLosesCarryIn(DOUBLE, Down, false, PRODUCT, 0, false, 99, -1)
    ensures FmaOutcome(DOUBLE, HalfEven, false, PRODUCT, 0, false, 99, -1).num == Finite(false, 3599999999999999, 16)
    ensures SumOutcome(DOUBLE, HalfEven, false, PRODUCT, 0, false, 99, -1).num == Finite(false, 3600000000000000, 16)
  {
    ProductCollapses();
    CollapsedSum();
    ExactSumIs();
    DownIsAlike();
    hide SumOutcome, RoundScaled, FmaOutcome, FmaLosesCarry, FmaLosesCarryIn;
    FmaInMode(DOUBLE, HalfEven, false, PRODUCT, 0, false, 99, -1);
  }

  /** The sum crosses a midpoint, and rounding down treats the two sides of every midpoint alike. */
  lemma DownIsAlike()
    ensures !FmaLosesCarryIn(DOUBLE, Down, false, PRODUCT, 0, false, 99, -1)
  {
    hide LosesCarry, Pow, Aligned;
    TenPowers();
    NumDigitsIs(PRODUCT, 32);
    assert HalfUnit(DOUBLE, PRODUCT, 0) == 5 * Pow(10, 15);
    assert CrossedAt(DOUBLE, true, PRODUCT, 0) == 7199999999999999;
  }

  /** Where the collapse begins: fourteen nines over PRODUCT's last digits are collapsed, and their carry lost;
      fifteen are not, and are added exactly. */
  lemma CollapseBegins()
    ensures FmaOutcome(DOUBLE, HalfEven, false, PRODUCT, 0, false, 99_999_999_999_999, -1).num
      == Finite(false, 3599999999999999, 16)
    ensures SumOutcome(DOUBLE, HalfEven, false, PRODUCT, 0, false, 99_999_999_999_999, -1).num
      == Finite(false, 3600000000000000, 16)
    ensures FmaOutcome(DOUBLE, HalfEven, false, PRODUCT, 0, false, 999_999_999_999_999, -1).num
      == Finite(false, 3600000000000000, 16)
  {
    hide SumOutcome, RoundScaled, Pow;
    TenPowers();
    FourteenNines();
    NumDigitsIs(PRODUCT, 32);
    NumDigitsIs(99_999_999_999_999, 14);
    NumDigitsIs(999_999_999_999_999, 15);
    FirstNine();
    CollapsedSum();
    SumAligned(DOUBLE, HalfEven, false, PRODUCT, 0, false, 99_999_999_999_999, -1, PRODUCT * 10);
    SixteenKept(PRODUCT * 10 + 99_999_999_999_999, -1, 17, 3599999999999999);
    SumAligned(DOUBLE, HalfEven, false, PRODUCT, 0, false, 999_999_999_999_999, -1, PRODUCT * 10);
    SixteenKept(PRODUCT * 10 + 999_999_999_999_999, -1, 17, 3599999999999999);
  }

  lemma FirstNine()
    ensures NumDigits(99_999_999_999_999) == 14 && LeadingDigit(99_999_999_999_999) == 9
  {
    hide Pow, NumDigits;
    FourteenNines();
    NumDigitsIs(99_999_999_999_999, 14);
  }

  lemma FourteenNines()
    ensures Pow(10, 13) == 10_000_000_000_000 && Pow(10, 14) == 100_000_000_000_000
  {
    hide Pow;
    SmallPowers();
    PowAdd(10, 9, 3);
    PowAdd(10, 12, 1);
    PowAdd(10, 13, 1);
  }

  lemma ProductCollapses()
    ensures FmaLosesCarry(DOUBLE, false, PRODUCT, 0, false, 99, -1)
    ensures FmaOutcome(DOUBLE, HalfEven, false, PRODUCT, 0, false, 99, -1)
      == SumOutcome(DOUBLE, HalfEven, false, PRODUCT, 0, false, 9, -3)
  {
    hide SumOutcome, Pow;
    TenPowers();
    NumDigitsIs(PRODUCT, 32);
    NumDigitsIs(99, 2);
    assert HalfUnit(DOUBLE, PRODUCT, 0) == 5 * Pow(10, 15);
    assert Aligned(PRODUCT % HalfUnit(DOUBLE, PRODUCT, 0), 0, -1) + 99 >= Aligned(HalfUnit(DOUBLE, PRODUCT, 0), 0, -1);
    ProductInRange();
    assert AddedCoeff(DOUBLE, PRODUCT, 0, 99, -1) == 9 && AddedExp(DOUBLE, PRODUCT, 0, 99, -1) == -3;
  }

  lemma ProductInRange()
    ensures !TooBig(DOUBLE, PRODUCT, 0)
  {
    hide Pow;
    TenPowers();
    AlignedSelf(PRODUCT, 0);
    PowMono(10, 32, 385);
  }

  lemma CollapsedSum()
    ensures SumOutcome(DOUBLE, HalfEven, false, PRODUCT, 0, false, 9, -3).num == Finite(false, 3599999999999999, 16)
  {
    hide SumOutcome, RoundScaled, Pow;
    TenPowers();
    SumAligned(DOUBLE, HalfEven, false, PRODUCT, 0, false, 9, -3, PRODUCT * 1000);
    SixteenKept(PRODUCT * 1000 + 9, -3, 19, 3599999999999999);
  }

  lemma ExactSumIs()
    ensures SumOutcome(DOUBLE, HalfEven, false, PRODUCT, 0, false, 99, -1).num == Finite(false, 3600000000000000, 16)
  {
    hide SumOutcome, RoundScaled, Pow;
    TenPowers();
    SumAligned(DOUBLE, HalfEven, false, PRODUCT, 0, false, 99, -1, PRODUCT * 10);
    SixteenKept(PRODUCT * 10 + 99, -1, 17, 3599999999999999);
  }

  /** A double rounded to nearest at exponent 16. */
  lemma SixteenKept(c: nat, e: int, drop: nat, q: nat)
    requires e + drop == 16 && drop > 0 && 2000000000000000 <= q < 9000000000000000
    requires c / Pow(10, drop) == q && c % Pow(10, drop) != 0 && 2 * (c % Pow(10, drop)) != Pow(10, drop)
    ensures RoundScaled(DOUBLE, HalfEven, false, c, e).num
      == Finite(false, if 2 * (c % Pow(10, drop)) > Pow(10, drop) then q + 1 else q, 16)
  {
    hide Pow, RoundScaled;
    TenPowers();
    DropSome(DOUBLE, HalfEven, false, c, e, drop);
  }

  lemma TenPowers()
    ensures Pow(10, 1) == 10 && Pow(10, 2) == 100 && Pow(10, 3) == 1000 && Pow(10, 15) == 1_000_000_000_000_000
    ensures Pow(10, 16) == 10_000_000_000_000_000 && Pow(10, 17) == 100_000_000_000_000_000
    ensures Pow(10, 19) == 10_000_000_000_000_000_000 && Pow(10, 31) == 10_000_000_000_000_000_000_000_000_000_000
    ensures Pow(10, 32) == 100_000_000_000_000_000_000_000_000_000_000
  {
    hide Pow;
    SmallPowers();
    PowAdd(10, 3, 3);
    PowAdd(10, 6, 6);
    PowAdd(10, 12, 3);
    PowAdd(10, 15, 1);
    PowAdd(10, 16, 1);
    PowAdd(10, 16, 3);
    PowAdd(10, 16, 15);
    PowAdd(10, 16, 16);
  }

  /** decFloatFMA for finite operands. */
  method FmaFinite(f: Format, l: Number, r: Number, a: Number, ctx: DecContext, use64: bool) returns (df: Number)
    requires f.Valid() && f.oplen <= 4 && Holds(f, l) && Holds(f, r) && Holds(f, a)
    modifies ctx`status
    ensures var o := FmaOutcome(f, ctx.round, l.neg != r.neg, l.coeff * r.coeff, l.exp + r.exp, a.neg, a.coeff, a.exp);
      df == o.num && ctx.status == old(ctx.status) + o.raised
    ensures !FmaLosesCarryIn(f, ctx.round, l.neg != r.neg, l.coeff * r.coeff, l.exp + r.exp, a.neg, a.coeff, a.exp) ==>
      var o := SumOutcome(f, ctx.round, l.neg != r.neg, l.coeff * r.coeff, l.exp + r.exp, a.neg, a.coeff, a.exp);
      df == o.num && ctx.status == old(ctx.status) + o.raised
  {
    hide Val, Pow, SumOutcome, AddedCoeff, AddedExp, Reduces, FmaLosesCarryIn;
    var acc := new nat[FmaLength(f)];
    var mul := FiniteMultiply(f, l, r, use64, acc, 1);
    var fin := Unpack(f, a);
    ghost var cp, ep := l.coeff * r.coeff, l.exp + r.exp;
    ProductFits(f, l.coeff, r.coeff);
    PowMono(10, f.p, 2 * f.p);
    FmaInMode(f, ctx.round, l.neg != r.neg, cp, ep, a.neg, a.coeff, a.exp);
    if mul.exponent >= fin.exponent {
      df := FusedSum(f, mul, fin, acc, ctx);
    } else {
      df := FusedSum(f, fin, mul, acc, ctx);
    }
  }

  /** decFloatFMA: l * r + a. */
  method FloatFma(f: Format, l: Number, r: Number, a: Number, ctx: DecContext, use64: bool) returns (df: Number)
    requires f.Valid() && f.oplen <= 4 && IsNumber(f, l) && IsNumber(f, r) && IsNumber(f, a)
    modifies ctx`status
    ensures l.Finite? && r.Finite? && a.Finite? ==>
      var o := FmaOutcome(f, ctx.round, l.neg != r.neg, l.coeff * r.coeff, l.exp + r.exp, a.neg, a.coeff, a.exp);
      df == o.num && ctx.status == old(ctx.status) + o.raised
    ensures l.Finite? && r.Finite? && a.Finite? &&
            !FmaLosesCarryIn(f, ctx.round, l.neg != r.neg, l.coeff * r.coeff, l.exp + r.exp, a.neg, a.coeff, a.exp) ==>
      var o := SumOutcome(f, ctx.round, l.neg != r.neg, l.coeff * r.coeff, l.exp + r.exp, a.neg, a.coeff, a.exp);
      df == o.num && ctx.status == old(ctx.status) + o.raised
    ensures l.NaN? || r.NaN? || a.NaN? ==>
      df == NaN(false) && ctx.status == old(ctx.status) + NaNRaises(l, r) + NaNRaises(a, a)
    ensures !l.NaN? && !r.NaN? && !a.NaN? && (l.Infinite? || r.Infinite? || a.Infinite?) ==>
      var product := l.Infinite? || r.Infinite?;
      if product && (IsZero(l) || IsZero(r) || (a.Infinite? && a.neg != (l.neg != r.neg)))
      then df == NaN(false) && ctx.status == old(ctx.status) + {InvalidOperation}
      else df == Infinite(if product then l.neg != r.neg else a.neg) && ctx.status == old(ctx.status)
  {
    hide FmaOutcome, SumOutcome, FmaLosesCarryIn;
    if !l.Finite? || !r.Finite? || !a.Finite? {
      df := FmaSpecial(l, r, a, ctx);
    } else {
      df := FmaFinite(f, l, r, a, ctx, use64);
    }
  }
}
